/** The application's state: the seller map, the diagram's node ids and
    edges, the selected seller, the sale amount and the acting-as seller, with
    the gestures that change them. */
module Store {
  import opened Hierarchy
  import opened Highlight
  import opened Commission
  import opened Visibility

  /** A diagram edge from `source` to `target`. */
  datatype Edge = Edge(id: string, source: Id, target: Id)

  /** The number of edges leaving `parent`: the new child's index on the fan-out arc. */
  function SiblingCount(edges: seq<Edge>, parent: Id): (r: nat)
    ensures r <= |edges|
    ensures r == 0 <==> forall i :: 0 <= i < |edges| ==> edges[i].source != parent
    decreases |edges|
  {
    if edges == [] then 0
    else (if edges[0].source == parent then 1 else 0) + SiblingCount(edges[1..], parent)
  }

  /** Appending an edge adds one sibling to its source and none to any other seller. */
  lemma {:induction false} SiblingCountAppend(edges: seq<Edge>, e: Edge, parent: Id)
    ensures SiblingCount(edges + [e], parent)
      == SiblingCount(edges, parent) + (if e.source == parent then 1 else 0)
    decreases |edges|
  {
    if edges != [] {
      assert (edges + [e])[1..] == edges[1..] + [e];
      SiblingCountAppend(edges[1..], e, parent);
    }
  }

  /** Every character of `s` is a decimal digit. */
  predicate AllDigits(s: string) {
    forall i :: 0 <= i < |s| ==> '0' <= s[i] <= '9'
  }

  /** The decimal digits of `n`, as a template literal prints a whole number:
      at least one digit, and no leading zero. */
  function Decimal(n: nat): (s: string)
    ensures |s| >= 1 && AllDigits(s)
    ensures n > 0 ==> s[0] != '0'
    decreases n
  {
    if n < 10 then ["0123456789"[n]] else Decimal(n / 10) + ["0123456789"[n % 10]]
  }

  /** The number a string of decimal digits denotes. */
  function ParseDecimal(s: string): nat
    requires AllDigits(s)
    decreases |s|
  {
    if s == [] then 0 else ParseDecimal(s[..|s| - 1]) * 10 + (s[|s| - 1] as int - '0' as int)
  }

  /** Reading back the printed digits gives the number. */
  lemma {:induction false} DecimalRoundTrip(n: nat)
    ensures ParseDecimal(Decimal(n)) == n
    decreases n
  {
    var s := Decimal(n);
    if n < 10 {
      assert ParseDecimal(s) == "0123456789"[n] as int - '0' as int;
    } else {
      assert s[..|s| - 1] == Decimal(n / 10);
      DecimalRoundTrip(n / 10);
      assert s[|s| - 1] as int - '0' as int == n % 10;
    }
  }

  /** The record `addSeller` creates under `parent` when the store holds
      `count` sellers: zero figures, not highlighted, visible, and named
      "Seller " followed by the number `count + 1`. */
  function NewSeller(id: Id, count: nat, parent: Id): (r: Seller)
    ensures r.id == id && r.parentId == Some(parent)
    ensures r.sales == 0.0 && r.commission == 0.0 && !r.highlighted && r.visible
    ensures |r.name| > 7 && r.name[..7] == "Seller " && AllDigits(r.name[7..])
    ensures ParseDecimal(r.name[7..]) == count + 1
  {
    DecimalRoundTrip(count + 1);
    var name := "Seller " + Decimal(count + 1);
    assert name[7..] == Decimal(count + 1);
    Seller(id, name, 0.0, 0.0, Some(parent), false, true)
  }

  /** Every seller keeps or raises its sales and commission, and none disappears. */
  ghost predicate Grows(before: Sellers, after: Sellers) {
    forall k :: k in before ==>
      k in after && before[k].sales <= after[k].sales && before[k].commission <= after[k].commission
  }

  /** The store invariant: one ranked tree under the root, every record filed
      under its own id, visible, with non-negative figures, and exactly one
      diagram node per seller. */
  ghost predicate Consistent(sellers: Sellers, nodeIds: set<Id>, rank: map<Id, nat>) {
    && RootedAt(sellers, RootId)
    && RankedBy(sellers, rank)
    && (forall k :: k in sellers ==> sellers[k].id == k)
    && (forall k :: k in sellers ==> sellers[k].visible)
    && (forall k :: k in sellers ==> 0.0 <= sellers[k].sales && 0.0 <= sellers[k].commission)
    && nodeIds == sellers.Keys
  }

  /** Adding a zeroed child of a stored seller under a new id, with its node, keeps the invariant. */
  lemma AddKeepsConsistent(sellers: Sellers, nodeIds: set<Id>, rank: map<Id, nat>, newId: Id, p: Id)
    requires Consistent(sellers, nodeIds, rank)
    requires newId !in sellers && p in sellers && p != ""
    ensures Consistent(sellers[newId := NewSeller(newId, |sellers|, p)], nodeIds + {newId},
                       rank[newId := rank[p] + 1])
  {
    ChildKeepsTree(sellers, rank, newId, p, NewSeller(newId, |sellers|, p));
  }

  /** `after` differs from `before` only in figures that grew and in highlights. */
  ghost predicate OnlyFiguresAndHighlights(before: Sellers, after: Sellers) {
    && before.Keys == after.Keys
    && Grows(before, after)
    && forall k :: k in before ==> SameButMoney(after[k], before[k])
  }

  /** Growing figures and moving highlights keeps the invariant. */
  lemma FiguresKeepConsistent(before: Sellers, after: Sellers, nodeIds: set<Id>, rank: map<Id, nat>)
    requires Consistent(before, nodeIds, rank) && OnlyFiguresAndHighlights(before, after)
    ensures Consistent(after, nodeIds, rank)
  {
    forall k
      ensures ParentOf(after, k) == ParentOf(before, k)
    {
    }
  }

  /** Hanging a new seller under a stored parent keeps the map one ranked tree under the root. */
  lemma ChildKeepsTree(m: Sellers, rank: map<Id, nat>, newId: Id, p: Id, child: Seller)
    requires RootedAt(m, RootId) && RankedBy(m, rank)
    requires newId !in m && p in m && p != "" && child.parentId == Some(p)
    ensures RootedAt(m[newId := child], RootId)
    ensures RankedBy(m[newId := child], rank[newId := rank[p] + 1])
  {
    var m', rank' := m[newId := child], rank[newId := rank[p] + 1];
    forall k
      ensures ParentOf(m', k) == if k == newId then Some(p) else ParentOf(m, k)
    {
    }
  }

  /** The state change of `addSeller` under the stored seller `p`: the new
      seller, its node and the edge from `p`, keeping the invariant. */
  method AttachChild(sellers: Sellers, nodeIds: set<Id>, edges: seq<Edge>, ghost rank: map<Id, nat>, p: Id, newId: Id)
    returns (sellers': Sellers, nodeIds': set<Id>, edges': seq<Edge>, ghost rank': map<Id, nat>)
    requires Consistent(sellers, nodeIds, rank)
    requires newId !in sellers && p in nodeIds && p != ""
    ensures Consistent(sellers', nodeIds', rank')
    ensures sellers' == sellers[newId := NewSeller(newId, |sellers|, p)]
    ensures nodeIds' == nodeIds + {newId}
    ensures edges' == edges + [Edge(p + "-" + newId, p, newId)]
    ensures SiblingCount(edges', p) == SiblingCount(edges, p) + 1
    ensures Grows(sellers, sellers')
  {
    AddKeepsConsistent(sellers, nodeIds, rank, newId, p);
    var e := Edge(p + "-" + newId, p, newId);
    SiblingCountAppend(edges, e, p);
    sellers', nodeIds', edges' := sellers[newId := NewSeller(newId, |sellers|, p)], nodeIds + {newId}, edges + [e];
    rank' := rank[newId := rank[p] + 1];
  }

  /** The state updater of `simulateSale`: clears every highlight in a working
      copy, then runs `processCommission` on it level by level from `start`. */
  method ApplySale(sellers: Sellers, start: Id, amount: real) returns (updated: Sellers)
    ensures updated == Sale(sellers, start, amount)
  {
    updated := ClearHighlights(sellers);
    var id, level, walking := start, 0, true;
    while walking
      invariant level <= MaxLevel
      invariant walking ==> Propagate(updated, id, level, amount) == Sale(sellers, start, amount)
      invariant !walking ==> updated == Sale(sellers, start, amount)
      decreases (if walking then 1 else 0) + MaxLevel - level
    {
      if id !in updated {
        walking := false;
      } else {
        var s := updated[id];
        updated := updated[id := Credit(s, level, amount)];
        if Truthy(s.parentId) && level < MaxLevel {
          id, level := s.parentId.value, level + 1;
        } else {
          walking := false;
        }
      }
    }
  }

  class SellerStore {
    var sellers: Sellers
    /** The ids of the diagram nodes (their positions are not modelled). */
    var nodeIds: set<Id>
    var edges: seq<Edge>
    var selected: Option<Id>
    var saleAmount: real
    var actingAs: Option<Id>

    /** The store invariant, for some rank that witnesses the absence of
        cycles, and a non-negative sale amount. */
    ghost predicate Valid()
      reads this
    {
      (exists rank :: Consistent(sellers, nodeIds, rank)) && 0.0 <= saleAmount
    }

    /** The starting state: the root seller alone, nothing selected, a sale amount of 1000. */
    constructor ()
      ensures Valid()
      ensures sellers == map[RootId := Seller(RootId, "Root Seller", 0.0, 0.0, None, false, true)]
      ensures nodeIds == {RootId} && edges == []
      ensures selected == None && actingAs == None && saleAmount == 1000.0
    {
      sellers := map[RootId := Seller(RootId, "Root Seller", 0.0, 0.0, None, false, true)];
      nodeIds := {RootId};
      edges := [];
      selected := None;
      saleAmount := 1000.0;
      actingAs := None;
      new;
      assert Consistent(sellers, nodeIds, map[RootId := 0]);
    }

    /** `onNodeClick`: selects `id` and highlights it alone; an unknown id is
        selected too and leaves every seller unhighlighted. */
    method Select(id: Id)
      requires Valid()
      modifies this
      ensures Valid()
      ensures selected == Some(id)
      ensures sellers == HighlightOnly(old(sellers), id)
      ensures HighlightedIds(sellers) == if id in sellers then {id} else {}
      ensures nodeIds == old(nodeIds) && edges == old(edges)
      ensures saleAmount == old(saleAmount) && actingAs == old(actingAs)
      ensures Grows(old(sellers), sellers)
    {
      var after := HighlightOnly(sellers, id);
      ghost var rank :| Consistent(sellers, nodeIds, rank);
      FiguresKeepConsistent(sellers, after, nodeIds, rank);
      HighlightOnlySingles(sellers, id);
      selected, sellers := Some(id), after;
      assert Consistent(sellers, nodeIds, rank);
    }

    /** Stores a new seller map, node set and edge list together. */
    method Commit(s: Sellers, n: set<Id>, e: seq<Edge>)
      modifies this
      ensures sellers == s && nodeIds == n && edges == e
      ensures selected == old(selected) && saleAmount == old(saleAmount) && actingAs == old(actingAs)
    {
      sellers, nodeIds, edges := s, n, e;
    }

    /** `addSeller`: under the selected seller, adds a zeroed seller `freshId`,
        a node for it and an edge from the parent. Nothing happens when no
        seller is selected or the selection is not a node. `freshId` stands
        for the generated UUID, so it is new. Returns whether the seller was
        added and the new child's index among its siblings. */
    method AddSeller(freshId: Id) returns (added: bool, siblingIndex: nat)
      requires Valid()
      requires freshId !in sellers
      modifies this
      ensures Valid()
      ensures added <==> Truthy(old(selected)) && old(selected).value in old(nodeIds)
      ensures !added ==> sellers == old(sellers) && nodeIds == old(nodeIds) && edges == old(edges)
      ensures added ==>
        var p := old(selected).value;
        && sellers == old(sellers)[freshId := NewSeller(freshId, |old(sellers)|, p)]
        && nodeIds == old(nodeIds) + {freshId}
        && edges == old(edges) + [Edge(p + "-" + freshId, p, freshId)]
        && siblingIndex == SiblingCount(old(edges), p)
        && SiblingCount(edges, p) == siblingIndex + 1
      ensures selected == old(selected) && saleAmount == old(saleAmount) && actingAs == old(actingAs)
      ensures Grows(old(sellers), sellers)
    {
      added, siblingIndex := false, 0;
      if Truthy(selected) && selected.value in nodeIds {
        var p := selected.value;
        siblingIndex := SiblingCount(edges, p);
        ghost var rank :| Consistent(sellers, nodeIds, rank);
        var s', n', e', rank' := AttachChild(sellers, nodeIds, edges, rank, p, freshId);
        Commit(s', n', e');
        assert Consistent(sellers, nodeIds, rank');
        added := true;
      }
    }

    /** `simulateSale`: with no seller selected nothing changes; otherwise the
        sale of `saleAmount` by the selected seller is applied by walking at
        most three levels up the working copy. */
    method SimulateSale()
      requires Valid()
      modifies this
      ensures Valid()
      ensures !Truthy(old(selected)) ==> sellers == old(sellers)
      ensures Truthy(old(selected)) ==> sellers == Sale(old(sellers), old(selected).value, saleAmount)
      ensures nodeIds == old(nodeIds) && edges == old(edges)
      ensures selected == old(selected) && saleAmount == old(saleAmount) && actingAs == old(actingAs)
      ensures Grows(old(sellers), sellers)
    {
      if !Truthy(selected) {
        return;
      }
      var start := selected.value;
      var updated := ApplySale(sellers, start, saleAmount);
      SaleOnlyAdds(sellers, start, saleAmount);
      ghost var rank :| Consistent(sellers, nodeIds, rank);
      FiguresKeepConsistent(sellers, updated, nodeIds, rank);
      sellers := updated;
      assert Consistent(sellers, nodeIds, rank);
    }

    /** The timer callback two seconds after a sale: clears every highlight,
        whatever happened in between. */
    method ExpireHighlights()
      requires Valid()
      modifies this
      ensures Valid()
      ensures sellers == ClearHighlights(old(sellers)) && HighlightedIds(sellers) == {}
      ensures nodeIds == old(nodeIds) && edges == old(edges)
      ensures selected == old(selected) && saleAmount == old(saleAmount) && actingAs == old(actingAs)
      ensures Grows(old(sellers), sellers)
    {
      var after := ClearHighlights(sellers);
      ghost var rank :| Consistent(sellers, nodeIds, rank);
      FiguresKeepConsistent(sellers, after, nodeIds, rank);
      ClearLeavesNone(sellers);
      sellers := after;
      assert Consistent(sellers, nodeIds, rank);
    }

    /** The amount field: a negative entry is raised to zero. */
    method SetSaleAmount(x: real)
      requires Valid()
      modifies this
      ensures Valid()
      ensures saleAmount == if x < 0.0 then 0.0 else x
      ensures sellers == old(sellers) && nodeIds == old(nodeIds) && edges == old(edges)
      ensures selected == old(selected) && actingAs == old(actingAs)
    {
      ghost var rank :| Consistent(sellers, nodeIds, rank);
      saleAmount := if x < 0.0 then 0.0 else x;
      assert Consistent(sellers, nodeIds, rank);
    }

    /** The acting-as selector: the empty choice means viewing all. */
    method SetActingAs(v: Id)
      requires Valid()
      modifies this
      ensures Valid()
      ensures actingAs == if v == "" then None else Some(v)
      ensures sellers == old(sellers) && nodeIds == old(nodeIds) && edges == old(edges)
      ensures selected == old(selected) && saleAmount == old(saleAmount)
    {
      ghost var rank :| Consistent(sellers, nodeIds, rank);
      actingAs := if v == "" then None else Some(v);
      assert Consistent(sellers, nodeIds, rank);
    }

    /** A connection drawn in the diagram: adds an edge and leaves every parent link alone. */
    method Connect(e: Edge)
      requires Valid()
      modifies this
      ensures Valid()
      ensures edges == old(edges) + [e]
      ensures sellers == old(sellers) && nodeIds == old(nodeIds)
      ensures selected == old(selected) && saleAmount == old(saleAmount) && actingAs == old(actingAs)
    {
      ghost var rank :| Consistent(sellers, nodeIds, rank);
      edges := edges + [e];
      assert Consistent(sellers, nodeIds, rank);
    }

    /** What the diagram shows for the current acting-as seller. */
    ghost function View(): (r: Sellers)
      reads this
      ensures r.Keys == sellers.Keys
      ensures !Truthy(actingAs) ==> r == sellers
      ensures Truthy(actingAs) ==> forall k :: k in r ==>
        r[k] == sellers[k].(visible := k == actingAs.value || sellers[k].parentId == actingAs)
    {
      VisibleRule(sellers, actingAs);
      VisibleSellers(sellers, actingAs)
    }
  }

  /** Every reachable store is one tree under the root: no seller is its own
      ancestor and every other seller descends from the root. */
  lemma ValidIsTree(s: SellerStore)
    requires s.Valid()
    ensures forall x :: x in s.sellers ==> !IsProperAncestor(s.sellers, x, x)
    ensures forall x :: x in s.sellers && x != RootId ==> IsProperAncestor(s.sellers, RootId, x)
  {
    var rank :| Consistent(s.sellers, s.nodeIds, rank);
    RankedIsAcyclic(s.sellers, rank);
    forall x | x in s.sellers && x != RootId
      ensures IsProperAncestor(s.sellers, RootId, x)
    {
      ReachesRoot(s.sellers, rank, RootId, x);
    }
  }

  /** Viewing all, every stored seller is visible and the view is the store itself. */
  lemma ViewAllShowsEveryone(s: SellerStore)
    requires s.Valid() && s.actingAs == None
    ensures s.View() == s.sellers
    ensures forall k :: k in s.View() ==> s.View()[k].visible
  {
    VisibleRule(s.sellers, s.actingAs);
  }
}
