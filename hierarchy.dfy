/** The seller record and the parent links that make the sellers a tree.

    A store is a finite map from seller id to seller; `parentId` names the
    referring seller. Identifiers are strings and money amounts are exact
    reals. */
module Hierarchy {

  datatype Option<T> = None | Some(value: T)

  type Id = string

  /** One participant of the referral tree. */
  datatype Seller = Seller(
    id: Id,
    name: string,
    sales: real,
    commission: real,
    parentId: Option<Id>,
    highlighted: bool,
    visible: bool)

  type Sellers = map<Id, Seller>

  /** The id of the seller the application starts with. */
  const RootId: Id := "root"

  /** `a` and `b` agree on every field except the figures and the highlight. */
  predicate SameButMoney(a: Seller, b: Seller) {
    a.id == b.id && a.name == b.name && a.parentId == b.parentId && a.visible == b.visible
  }

  /** JavaScript truthiness of a `string | null`: the two falsy values are null and "". */
  predicate Truthy(o: Option<Id>): (b: bool)
    ensures b <==> o != None && o != Some("")
  {
    o.Some? && o.value != ""
  }

  /** The id one parent link above `id`, when `id` is stored and has a (truthy) parent. */
  function ParentOf(m: Sellers, id: Id): Option<Id> {
    if id in m && Truthy(m[id].parentId) then m[id].parentId else None
  }

  /** The id `k` parent links above `id`; `Up(m, id, 0)` is `id` itself. */
  function Up(m: Sellers, id: Id, k: nat): Option<Id> {
    if k == 0 then Some(id)
    else match Up(m, id, k - 1)
      case None => None
      case Some(y) => ParentOf(m, y)
  }

  /** `a` is reached from `x` by following one or more parent links. */
  ghost predicate IsProperAncestor(m: Sellers, a: Id, x: Id) {
    exists k: nat :: 1 <= k && Up(m, x, k) == Some(a)
  }

  /** `rank` strictly decreases along every parent link between stored sellers:
      the witness that the links contain no cycle. */
  ghost predicate RankedBy(m: Sellers, rank: map<Id, nat>) {
    && m.Keys <= rank.Keys
    && forall k {:trigger ParentOf(m, k)} :: ParentOf(m, k).Some? && ParentOf(m, k).value in m ==>
         rank[ParentOf(m, k).value] < rank[k]
  }

  /** Every stored parent reference names a stored seller. */
  ghost predicate NoDangling(m: Sellers) {
    forall k {:trigger ParentOf(m, k)} :: ParentOf(m, k).Some? ==> ParentOf(m, k).value in m
  }

  /** Once the upward walk has ended it stays ended. */
  lemma {:induction false} UpStaysEnded(m: Sellers, id: Id, k: nat, j: nat)
    requires k <= j && Up(m, id, k) == None
    ensures Up(m, id, j) == None
  {
    if k < j {
      UpStaysEnded(m, id, k, j - 1);
    }
  }

  /** Walking `k + 1` links from `x` is walking `k` links from its parent. */
  lemma {:induction false} UpFromParent(m: Sellers, x: Id, k: nat)
    requires ParentOf(m, x).Some?
    ensures Up(m, x, k + 1) == Up(m, ParentOf(m, x).value, k)
  {
    if k > 0 {
      UpFromParent(m, x, k - 1);
    }
  }

  /** Every stored seller reached from a stored `x` has a smaller rank than `x`. */
  lemma {:induction false} UpRankBelow(m: Sellers, rank: map<Id, nat>, x: Id, k: nat)
    requires RankedBy(m, rank) && x in m && 1 <= k
    requires Up(m, x, k).Some? && Up(m, x, k).value in m
    ensures rank[Up(m, x, k).value] < rank[x]
  {
    if k > 1 {
      var y := Up(m, x, k - 1);
      assert y.Some? && y.value in m;
      UpRankBelow(m, rank, x, k - 1);
    }
  }

  /** A ranked store has no cycle: no seller is its own proper ancestor. */
  lemma RankedIsAcyclic(m: Sellers, rank: map<Id, nat>)
    requires RankedBy(m, rank)
    ensures forall x :: x in m ==> !IsProperAncestor(m, x, x)
  {
    forall x | x in m
      ensures !IsProperAncestor(m, x, x)
    {
      if IsProperAncestor(m, x, x) {
        var k: nat :| 1 <= k && Up(m, x, k) == Some(x);
        UpRankBelow(m, rank, x, k);
      }
    }
  }

  /** The store forms one tree rooted at `root`: the root has no parent,
      every other seller has one, and links never leave the store. */
  ghost predicate RootedAt(m: Sellers, root: Id) {
    && root in m
    && !Truthy(m[root].parentId)
    && (forall k :: k in m && k != root ==> Truthy(m[k].parentId))
    && NoDangling(m)
  }

  /** In a ranked tree every seller other than the root descends from the root. */
  lemma {:induction false} ReachesRoot(m: Sellers, rank: map<Id, nat>, root: Id, x: Id)
    requires RankedBy(m, rank) && RootedAt(m, root) && x in m
    ensures x == root || IsProperAncestor(m, root, x)
    decreases rank[x]
  {
    if x != root {
      var p := m[x].parentId.value;
      assert ParentOf(m, x) == Some(p);
      if p == root {
        assert Up(m, x, 1) == Some(root);
      } else {
        ReachesRoot(m, rank, root, p);
        var k: nat :| 1 <= k && Up(m, p, k) == Some(root);
        UpFromParent(m, x, k);
        assert Up(m, x, k + 1) == Some(root);
      }
    }
  }

  /** `isDescendantOf(sellerId, ancestorId)`: walks the parent links up from
      `sellerId` and answers whether `ancestorId` is met. The loop only ends
      because the links have no cycle, which `rank` witnesses. */
  method IsDescendantOf(m: Sellers, sellerId: Id, ancestorId: Id, ghost rank: map<Id, nat>)
    returns (r: bool)
    requires RankedBy(m, rank)
    ensures r <==> IsProperAncestor(m, ancestorId, sellerId)
  {
    var current: Option<Seller> := if sellerId in m then Some(m[sellerId]) else None;
    ghost var cur := sellerId;
    ghost var i: nat := 0;
    while current.Some? && Truthy(current.value.parentId)
      invariant current.Some? ==> cur in m && current.value == m[cur] && Up(m, sellerId, i) == Some(cur)
      invariant current.None? ==> Up(m, sellerId, i + 1) == None
      invariant forall j :: 1 <= j <= i ==> Up(m, sellerId, j) != Some(ancestorId)
      decreases if current.Some? then rank[cur] + 1 else 0
    {
      var p := current.value.parentId.value;
      assert Up(m, sellerId, i + 1) == Some(p);
      if p == ancestorId {
        return true;
      }
      current := if p in m then Some(m[p]) else None;
      cur := p;
      i := i + 1;
    }
    assert Up(m, sellerId, i + 1) == None;
    forall k: nat | i < k
      ensures Up(m, sellerId, k) == None
    {
      UpStaysEnded(m, sellerId, i + 1, k);
    }
    return false;
  }
}
