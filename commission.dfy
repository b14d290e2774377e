/** Commission propagation of a simulated sale.

    A sale of `amount` by seller `id` first clears every highlight, then walks
    up the parent links at most three sellers deep (levels 0, 1, 2). The
    level-0 seller is credited the sale and 3% commission, levels 1 and 2
    get 1% commission each, and every seller met is highlighted. The walk
    reads the working copy it is updating, exactly as the application does. */
module Commission {
  import opened Hierarchy
  import opened Highlight

  /** The deepest level that earns commission. */
  const MaxLevel: nat := 2

  /** Commission rate by level: 3% for the seller who sold, 1% for the parent and grandparent. */
  function Rate(level: nat): (r: real)
    ensures level == 0 ==> r == 3.0 / 100.0
    ensures 1 <= level <= MaxLevel ==> r == 1.0 / 100.0
    ensures MaxLevel < level ==> r == 0.0
  {
    if level == 0 then 0.03 else if level <= 2 then 0.01 else 0.0
  }

  /** One visit of the walk: the new seller record at `level`. */
  function Credit(s: Seller, level: nat, amount: real): (r: Seller)
    ensures SameButMoney(r, s) && r.highlighted
    ensures r.sales == s.sales + (if level == 0 then amount else 0.0)
    ensures r.commission == s.commission + amount * Rate(level)
  {
    s.(sales := s.sales + (if level == 0 then amount else 0.0),
       commission := s.commission + amount * Rate(level),
       highlighted := true)
  }

  /** `processCommission(id, level)` applied to the working copy `m`. */
  function Propagate(m: Sellers, id: Id, level: nat, amount: real): (r: Sellers)
    requires level <= MaxLevel
    ensures r.Keys == m.Keys
    decreases MaxLevel - level
  {
    if id !in m then m
    else
      var s := m[id];
      var m' := m[id := Credit(s, level, amount)];
      if Truthy(s.parentId) && level < MaxLevel then Propagate(m', s.parentId.value, level + 1, amount)
      else m'
  }

  /** The whole sale: clear all highlights, then propagate from level 0. */
  function Sale(m: Sellers, id: Id, amount: real): (r: Sellers)
    ensures r.Keys == m.Keys
    ensures id !in m ==> r == ClearHighlights(m)
  {
    Propagate(ClearHighlights(m), id, 0, amount)
  }

  /** The ids the walk from `id` at `level` visits, in order. */
  function Walk(m: Sellers, id: Id, level: nat): (w: seq<Id>)
    requires level <= MaxLevel
    ensures |w| <= MaxLevel + 1 - level
    ensures forall i :: 0 <= i < |w| ==> w[i] in m
    decreases MaxLevel - level
  {
    if id !in m then []
    else [id] + (if Truthy(m[id].parentId) && level < MaxLevel
                 then Walk(m, m[id].parentId.value, level + 1) else [])
  }

  /** The sellers a sale by `id` visits, level 0 first. */
  function Visited(m: Sellers, id: Id): seq<Id> {
    Walk(m, id, 0)
  }

  /** What seller `k` earns from the visits `w`, the first of which is at `level`. */
  function Earned(w: seq<Id>, k: Id, level: nat, amount: real): real
    decreases |w|
  {
    if w == [] then 0.0
    else (if w[0] == k then amount * Rate(level) else 0.0) + Earned(w[1..], k, level + 1, amount)
  }

  /** `m` and `n` have the same keys and the same parent links. */
  ghost predicate SameLinks(m: Sellers, n: Sellers) {
    m.Keys == n.Keys && forall k :: k in m ==> m[k].parentId == n[k].parentId
  }

  /** The walk depends only on the keys and the parent links. */
  lemma {:induction false} WalkSameLinks(m: Sellers, n: Sellers, id: Id, level: nat)
    requires level <= MaxLevel && SameLinks(m, n)
    ensures Walk(m, id, level) == Walk(n, id, level)
    decreases MaxLevel - level
  {
    if id in m && Truthy(m[id].parentId) && level < MaxLevel {
      WalkSameLinks(m, n, m[id].parentId.value, level + 1);
    }
  }

  /** Crediting the visited seller keeps the keys and every parent link, so the rest of the walk is unchanged. */
  lemma CreditKeepsWalk(m: Sellers, id: Id, level: nat, amount: real, p: Id, next: nat)
    requires id in m && next <= MaxLevel
    ensures Walk(m[id := Credit(m[id], level, amount)], p, next) == Walk(m, p, next)
  {
    assert SameLinks(m[id := Credit(m[id], level, amount)], m);
    WalkSameLinks(m[id := Credit(m[id], level, amount)], m, p, next);
  }

  /** `Propagate` changes only the figures and the highlight of a stored seller. */
  lemma {:induction false} PropagateKeeps(m: Sellers, id: Id, level: nat, amount: real, k: Id)
    requires level <= MaxLevel && k in m
    ensures SameButMoney(Propagate(m, id, level, amount)[k], m[k])
    decreases MaxLevel - level
  {
    if id in m && Truthy(m[id].parentId) && level < MaxLevel {
      PropagateKeeps(m[id := Credit(m[id], level, amount)], m[id].parentId.value, level + 1, amount, k);
    }
  }

  /** Only the level-0 seller's sales grow, by the amount. */
  lemma {:induction false} PropagateSales(m: Sellers, id: Id, level: nat, amount: real, k: Id)
    requires level <= MaxLevel && k in m
    ensures Propagate(m, id, level, amount)[k].sales
      == m[k].sales + (if level == 0 && k == id then amount else 0.0)
    decreases MaxLevel - level
  {
    if id in m && Truthy(m[id].parentId) && level < MaxLevel {
      PropagateSales(m[id := Credit(m[id], level, amount)], m[id].parentId.value, level + 1, amount, k);
    }
  }

  /** Every visit adds its level's rate of the amount to the visited seller's commission. */
  lemma {:induction false} PropagateCommission(m: Sellers, id: Id, level: nat, amount: real, k: Id)
    requires level <= MaxLevel && k in m
    ensures Propagate(m, id, level, amount)[k].commission
      == m[k].commission + Earned(Walk(m, id, level), k, level, amount)
    decreases MaxLevel - level
  {
    if id in m {
      var w := Walk(m, id, level);
      if Truthy(m[id].parentId) && level < MaxLevel {
        var p := m[id].parentId.value;
        PropagateCommission(m[id := Credit(m[id], level, amount)], p, level + 1, amount, k);
        CreditKeepsWalk(m, id, level, amount, p, level + 1);
        assert w[1..] == Walk(m, p, level + 1);
        assert Earned(w, k, level, amount)
          == (if k == id then amount * Rate(level) else 0.0) + Earned(w[1..], k, level + 1, amount);
      } else {
        assert w == [id];
        assert Earned(w, k, level, amount) == if k == id then amount * Rate(level) else 0.0;
      }
    }
  }

  /** Every visited seller ends up highlighted; the others keep their flag. */
  lemma {:induction false} PropagateHighlight(m: Sellers, id: Id, level: nat, amount: real, k: Id)
    requires level <= MaxLevel && k in m
    ensures Propagate(m, id, level, amount)[k].highlighted
      == (m[k].highlighted || k in Walk(m, id, level))
    decreases MaxLevel - level
  {
    if id in m {
      var w := Walk(m, id, level);
      if Truthy(m[id].parentId) && level < MaxLevel {
        var p := m[id].parentId.value;
        PropagateHighlight(m[id := Credit(m[id], level, amount)], p, level + 1, amount, k);
        CreditKeepsWalk(m, id, level, amount, p, level + 1);
        assert w == [id] + Walk(m, p, level + 1);
      } else {
        assert w == [id];
      }
    }
  }

  /** What `Propagate` does to any one stored seller: the sale goes to the
      level-0 seller, each visit adds its level's commission, each visited
      seller is highlighted, and every other field is kept. */
  lemma PropagateEffect(m: Sellers, id: Id, level: nat, amount: real, k: Id)
    requires level <= MaxLevel && k in m
    ensures Propagate(m, id, level, amount)[k] == m[k].(
      sales := m[k].sales + (if level == 0 && k == id then amount else 0.0),
      commission := m[k].commission + Earned(Walk(m, id, level), k, level, amount),
      highlighted := m[k].highlighted || k in Walk(m, id, level))
  {
    PropagateKeeps(m, id, level, amount, k);
    PropagateSales(m, id, level, amount, k);
    PropagateCommission(m, id, level, amount, k);
    PropagateHighlight(m, id, level, amount, k);
  }

  /** What a sale does to any one stored seller, on any map (even one with a cycle). */
  lemma SaleEffect(m: Sellers, id: Id, amount: real, k: Id)
    requires k in m
    ensures Sale(m, id, amount)[k] == m[k].(
      sales := m[k].sales + (if k == id then amount else 0.0),
      commission := m[k].commission + Earned(Visited(m, id), k, 0, amount),
      highlighted := k in Visited(m, id))
  {
    var c := ClearHighlights(m);
    PropagateEffect(c, id, 0, amount, k);
    assert SameLinks(c, m);
    WalkSameLinks(c, m, id, 0);
  }

  /** The walk follows parent links from `id`, one stored seller per level. */
  lemma {:induction false} WalkFollowsLinks(m: Sellers, id: Id, level: nat)
    requires level <= MaxLevel
    ensures forall i :: 0 <= i < |Walk(m, id, level)| ==> Up(m, id, i) == Some(Walk(m, id, level)[i])
    ensures forall i :: 0 <= i <= MaxLevel - level ==>
      (i < |Walk(m, id, level)| <==> Up(m, id, i).Some? && Up(m, id, i).value in m)
    decreases MaxLevel - level
  {
    var w := Walk(m, id, level);
    if id in m && Truthy(m[id].parentId) && level < MaxLevel {
      var p := m[id].parentId.value;
      assert ParentOf(m, id) == Some(p);
      WalkFollowsLinks(m, p, level + 1);
      assert w[1..] == Walk(m, p, level + 1);
      forall i | 1 <= i <= MaxLevel - level
        ensures (i < |w| <==> Up(m, id, i).Some? && Up(m, id, i).value in m)
        ensures i < |w| ==> Up(m, id, i) == Some(w[i])
      {
        UpFromParent(m, id, i - 1);
      }
    } else if id in m && !Truthy(m[id].parentId) {
      assert w == [id];
      assert Up(m, id, 1) == None;
      forall i | 1 <= i <= MaxLevel - level
        ensures Up(m, id, i) == None
      {
        UpStaysEnded(m, id, 1, i);
      }
    } else if id !in m {
      assert Up(m, id, 1) == None;
      forall i | 1 <= i <= MaxLevel - level
        ensures Up(m, id, i) == None
      {
        UpStaysEnded(m, id, 1, i);
      }
    }
  }

  /** The walk of a sale visits at most three sellers: level `i` is visited
      exactly when the seller `i` links above `id` is stored, so it stops at
      level 2, at a missing parent, or at a parent that is not stored. */
  lemma VisitedIsChain(m: Sellers, id: Id)
    ensures |Visited(m, id)| <= 3
    ensures forall i :: 0 <= i < |Visited(m, id)| ==> Up(m, id, i) == Some(Visited(m, id)[i])
    ensures forall i :: 0 <= i <= MaxLevel ==>
      (i < |Visited(m, id)| <==> Up(m, id, i).Some? && Up(m, id, i).value in m)
  {
    WalkFollowsLinks(m, id, 0);
  }

  /** On a ranked store the walk never meets the same seller twice. */
  lemma {:induction false} WalkDistinct(m: Sellers, rank: map<Id, nat>, id: Id, level: nat)
    requires level <= MaxLevel && RankedBy(m, rank)
    ensures forall i :: 0 < i < |Walk(m, id, level)| ==> rank[Walk(m, id, level)[i]] < rank[id]
    ensures forall i, j :: 0 <= i < j < |Walk(m, id, level)| ==> Walk(m, id, level)[i] != Walk(m, id, level)[j]
    decreases MaxLevel - level
  {
    var w := Walk(m, id, level);
    if id in m && Truthy(m[id].parentId) && level < MaxLevel {
      var p := m[id].parentId.value;
      assert ParentOf(m, id) == Some(p);
      WalkDistinct(m, rank, p, level + 1);
      assert w[1..] == Walk(m, p, level + 1);
    }
  }

  /** On a list without repeats a seller earns the rate of the level it is visited at, or nothing. */
  lemma {:induction false} EarnedOnce(w: seq<Id>, k: Id, level: nat, amount: real)
    requires forall i, j :: 0 <= i < j < |w| ==> w[i] != w[j]
    ensures k !in w ==> Earned(w, k, level, amount) == 0.0
    ensures forall i :: 0 <= i < |w| && w[i] == k ==> Earned(w, k, level, amount) == amount * Rate(level + i)
    decreases |w|
  {
    if w != [] {
      EarnedOnce(w[1..], k, level + 1, amount);
      if w[0] == k {
        assert k !in w[1..];
      } else {
        forall i | 0 <= i < |w| && w[i] == k
          ensures Earned(w, k, level, amount) == amount * Rate(level + i)
        {
          assert w[1..][i - 1] == k;
        }
      }
    }
  }

  /** A non-negative sale earns nothing negative. */
  lemma {:induction false} EarnedNonNegative(w: seq<Id>, k: Id, level: nat, amount: real)
    requires 0.0 <= amount
    ensures 0.0 <= Earned(w, k, level, amount)
    decreases |w|
  {
    if w != [] {
      EarnedNonNegative(w[1..], k, level + 1, amount);
      assert 0.0 <= amount * Rate(level);
    }
  }

  /** On a ranked store the `i`-th visited seller gains the amount in sales
      only at level 0, `Rate(i)` of it in commission, and is highlighted. */
  lemma SaleAtVisit(m: Sellers, rank: map<Id, nat>, id: Id, amount: real, i: nat)
    requires RankedBy(m, rank) && i < |Visited(m, id)|
    ensures Sale(m, id, amount)[Visited(m, id)[i]].sales
      == m[Visited(m, id)[i]].sales + (if i == 0 then amount else 0.0)
    ensures Sale(m, id, amount)[Visited(m, id)[i]].commission
      == m[Visited(m, id)[i]].commission + amount * Rate(i)
    ensures Sale(m, id, amount)[Visited(m, id)[i]].highlighted
  {
    var v := Visited(m, id);
    var y := v[i];
    WalkDistinct(m, rank, id, 0);
    SaleEffect(m, id, amount, y);
    EarnedOnce(v, y, 0, amount);
    assert Earned(v, y, 0, amount) == amount * Rate(i);
    assert v[0] == id;
    assert (y == id) == (i == 0);
  }

  /** On a ranked store: the seller who sold gains the amount in sales and 3%
      in commission, the next two sellers up gain 1% each and no sales, all
      visited sellers are highlighted and every other seller only loses its highlight. */
  lemma SaleOnTree(m: Sellers, rank: map<Id, nat>, id: Id, amount: real)
    requires RankedBy(m, rank)
    ensures forall i :: 0 <= i < |Visited(m, id)| ==>
      var y := Visited(m, id)[i];
      && Sale(m, id, amount)[y].sales == m[y].sales + (if i == 0 then amount else 0.0)
      && Sale(m, id, amount)[y].commission == m[y].commission + amount * Rate(i)
      && Sale(m, id, amount)[y].highlighted
    ensures forall k :: k in m && k !in Visited(m, id) ==>
      Sale(m, id, amount)[k] == m[k].(highlighted := false)
  {
    var v := Visited(m, id);
    forall i | 0 <= i < |v|
      ensures Sale(m, id, amount)[v[i]].sales == m[v[i]].sales + (if i == 0 then amount else 0.0)
      ensures Sale(m, id, amount)[v[i]].commission == m[v[i]].commission + amount * Rate(i)
      ensures Sale(m, id, amount)[v[i]].highlighted
    {
      SaleAtVisit(m, rank, id, amount, i);
    }
    WalkDistinct(m, rank, id, 0);
    forall k | k in m && k !in v
      ensures Sale(m, id, amount)[k] == m[k].(highlighted := false)
    {
      SaleEffect(m, id, amount, k);
      EarnedOnce(v, k, 0, amount);
    }
  }

  /** The same facts named by level: the seller `i <= 2` links above `id`, when
      it is stored, gains `Rate(i)` of the amount, and sales only at level 0. */
  lemma SaleAtLevel(m: Sellers, rank: map<Id, nat>, id: Id, amount: real, i: nat, y: Id)
    requires RankedBy(m, rank) && i <= MaxLevel && Up(m, id, i) == Some(y) && y in m
    ensures Sale(m, id, amount)[y].sales == m[y].sales + (if i == 0 then amount else 0.0)
    ensures Sale(m, id, amount)[y].commission == m[y].commission + amount * Rate(i)
    ensures Sale(m, id, amount)[y].highlighted
  {
    VisitedIsChain(m, id);
    SaleOnTree(m, rank, id, amount);
    assert Visited(m, id)[i] == y;
  }

  /** A sale only adds: it keeps every key and every field except sales,
      commission and highlight, and with a non-negative amount no seller's
      sales or commission goes down. */
  lemma SaleOnlyAdds(m: Sellers, id: Id, amount: real)
    requires 0.0 <= amount
    ensures forall k :: k in m ==>
      && SameButMoney(Sale(m, id, amount)[k], m[k])
      && m[k].sales <= Sale(m, id, amount)[k].sales
      && m[k].commission <= Sale(m, id, amount)[k].commission
  {
    forall k | k in m
      ensures SameButMoney(Sale(m, id, amount)[k], m[k])
      ensures m[k].sales <= Sale(m, id, amount)[k].sales
      ensures m[k].commission <= Sale(m, id, amount)[k].commission
    {
      SaleEffect(m, id, amount, k);
      EarnedNonNegative(Visited(m, id), k, 0, amount);
    }
  }

  /** Right after a sale exactly the visited sellers are highlighted; none when `id` is not stored. */
  lemma SaleHighlightsVisited(m: Sellers, id: Id, amount: real)
    ensures HighlightedIds(Sale(m, id, amount)) == set k | k in Visited(m, id)
    ensures id !in m ==> HighlightedIds(Sale(m, id, amount)) == {}
  {
    var r := Sale(m, id, amount);
    forall k | k in m
      ensures r[k].highlighted <==> k in Visited(m, id)
    {
      SaleEffect(m, id, amount, k);
    }
    if id !in m {
      assert Visited(m, id) == [];
    }
  }
}
