/** The "acting as" projection: which sellers' figures are disclosed when the
    viewer acts as one seller. Only the `visible` field is recomputed. */
module Visibility {
  import opened Hierarchy

  /** `getVisibleSellers()`. With no (or an empty) acting seller the map comes
      back as it is. Otherwise every seller stays in the map: the acting seller
      and its descendants get `visible` set to "is the acting seller or a
      direct child of it", every other seller gets `visible` false. */
  ghost function VisibleSellers(m: Sellers, actingAs: Option<Id>): (r: Sellers)
    ensures r.Keys == m.Keys
    ensures forall k :: k in r ==> r[k].(visible := m[k].visible) == m[k]
  {
    if !Truthy(actingAs) then m
    else
      var a := actingAs.value;
      map k | k in m ::
        if k == a || IsProperAncestor(m, a, k) then m[k].(visible := k == a || m[k].parentId == actingAs)
        else m[k].(visible := false)
  }

  /** The rule the projection amounts to: a seller's figures are visible exactly
      when it is the acting seller or one of its direct children. The
      descendant test decides nothing, because a direct child is always a descendant. */
  lemma VisibleRule(m: Sellers, actingAs: Option<Id>)
    ensures !Truthy(actingAs) ==> VisibleSellers(m, actingAs) == m
    ensures Truthy(actingAs) ==> forall k :: k in m ==>
      VisibleSellers(m, actingAs)[k] == m[k].(visible := k == actingAs.value || m[k].parentId == actingAs)
  {
    if Truthy(actingAs) {
      var a := actingAs.value;
      forall k | k in m && m[k].parentId == actingAs
        ensures IsProperAncestor(m, a, k)
      {
        assert Up(m, k, 1) == Some(a);
      }
    }
  }

  /** Figures are disclosed only inside the acting seller's subtree, and
      never for a descendant two or more levels down. */
  lemma VisibleOnlyInScope(m: Sellers, a: Id, k: Id)
    requires a != "" && k in m
    ensures VisibleSellers(m, Some(a))[k].visible ==> k == a || IsProperAncestor(m, a, k)
    ensures k != a && m[k].parentId != Some(a) ==> !VisibleSellers(m, Some(a))[k].visible
  {
    VisibleRule(m, Some(a));
    if m[k].parentId == Some(a) {
      assert Up(m, k, 1) == Some(a);
    }
  }

  /** Projecting an already projected map changes nothing. */
  lemma VisibleIdempotent(m: Sellers, actingAs: Option<Id>)
    ensures VisibleSellers(VisibleSellers(m, actingAs), actingAs) == VisibleSellers(m, actingAs)
  {
    var r := VisibleSellers(m, actingAs);
    VisibleRule(m, actingAs);
    VisibleRule(r, actingAs);
    if Truthy(actingAs) {
      var rr := VisibleSellers(r, actingAs);
      forall k | k in rr
        ensures rr[k] == r[k]
      {
        assert r[k].parentId == m[k].parentId;
      }
    }
  }

  /** In the chain `root` <- `A` <- `B` <- `C`, `A` is a proper ancestor of
      `C` and not of `root`. */
  lemma FourLevelLinks(m: Sellers, rs: Seller, sa: Seller, sb: Seller, sc: Seller)
    requires rs.parentId == None && sa.parentId == Some("root")
    requires sb.parentId == Some("A") && sc.parentId == Some("B")
    requires m == map["root" := rs, "A" := sa, "B" := sb, "C" := sc]
    ensures IsProperAncestor(m, "A", "C")
    ensures !IsProperAncestor(m, "A", "root")
  {
    assert Up(m, "C", 1) == Some("B");
    assert Up(m, "C", 2) == Some("A");
    assert Up(m, "root", 1) == None;
    forall k: nat | 1 <= k
      ensures Up(m, "root", k) == None
    {
      UpStaysEnded(m, "root", 1, k);
    }
  }

  /** Root `root`, its child `A`, `A`'s child `B` and `B`'s child `C`, viewed
      as `A`: all four stay in the map; `A` and its direct child `B` are
      visible, `C` is a descendant of `A` but hidden, and `root`, not a
      descendant of `A`, is hidden as well. */
  lemma FourLevelScenario(m: Sellers, rs: Seller, sa: Seller, sb: Seller, sc: Seller)
    requires rs.parentId == None && sa.parentId == Some("root")
    requires sb.parentId == Some("A") && sc.parentId == Some("B")
    requires m == map["root" := rs, "A" := sa, "B" := sb, "C" := sc]
    ensures VisibleSellers(m, Some("A")).Keys == {"root", "A", "B", "C"}
    ensures VisibleSellers(m, Some("A"))["A"].visible
    ensures VisibleSellers(m, Some("A"))["B"].visible
    ensures IsProperAncestor(m, "A", "C") && !VisibleSellers(m, Some("A"))["C"].visible
    ensures !IsProperAncestor(m, "A", "root") && !VisibleSellers(m, Some("A"))["root"].visible
  {
    VisibleRule(m, Some("A"));
    FourLevelLinks(m, rs, sa, sb, sc);
  }
}
