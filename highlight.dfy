/** The transient `highlighted` flag: the clear-all rebuild run before a sale
    and by the deferred timer, and the rebuild that highlights a clicked seller. */
module Highlight {
  import opened Hierarchy

  /** `a` and `b` agree on every field except `highlighted`. */
  predicate SameButHighlight(a: Seller, b: Seller) {
    SameButMoney(a, b) && a.sales == b.sales && a.commission == b.commission
  }

  /** The ids whose seller is currently highlighted. */
  ghost function HighlightedIds(m: Sellers): set<Id> {
    set k | k in m && m[k].highlighted
  }

  /** Rebuilds the map with every `highlighted` flag false. */
  function ClearHighlights(m: Sellers): (r: Sellers)
    ensures r.Keys == m.Keys
    ensures forall k :: k in r ==> !r[k].highlighted && SameButHighlight(r[k], m[k])
  {
    map k | k in m :: m[k].(highlighted := false)
  }

  /** Rebuilds the map with `highlighted` true exactly on the key `id`. */
  function HighlightOnly(m: Sellers, id: Id): (r: Sellers)
    ensures r.Keys == m.Keys
    ensures forall k :: k in r ==> (r[k].highlighted <==> k == id) && SameButHighlight(r[k], m[k])
  {
    map k | k in m :: m[k].(highlighted := k == id)
  }

  /** After a click exactly one seller is highlighted, or none when the id is unknown. */
  lemma HighlightOnlySingles(m: Sellers, id: Id)
    ensures HighlightedIds(HighlightOnly(m, id)) == if id in m then {id} else {}
  {
    var r := HighlightOnly(m, id);
    if id in m {
      assert id in HighlightedIds(r);
    }
  }

  /** After a clear nothing is highlighted. */
  lemma ClearLeavesNone(m: Sellers)
    ensures HighlightedIds(ClearHighlights(m)) == {}
  {
  }

  /** Two maps equal up to their highlight flags clear to the same map. */
  lemma {:induction false} ClearForgetsHighlights(m: Sellers, n: Sellers)
    requires m.Keys == n.Keys
    requires forall k :: k in m ==> SameButHighlight(m[k], n[k])
    ensures ClearHighlights(m) == ClearHighlights(n)
  {
    var a, b := ClearHighlights(m), ClearHighlights(n);
    forall k | k in a
      ensures a[k] == b[k]
    {
      assert a[k] == m[k].(highlighted := false);
      assert b[k] == n[k].(highlighted := false);
    }
  }

  /** The deferred clear wipes a selection highlight too, and clearing twice is clearing once. */
  lemma ClearAfterHighlight(m: Sellers, id: Id)
    ensures ClearHighlights(HighlightOnly(m, id)) == ClearHighlights(m)
    ensures ClearHighlights(ClearHighlights(m)) == ClearHighlights(m)
  {
    ClearForgetsHighlights(HighlightOnly(m, id), m);
    ClearForgetsHighlights(ClearHighlights(m), m);
  }
}
