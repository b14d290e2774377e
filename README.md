# Seller hierarchy simulator — a verified model

The simulator shows a multi-level sales organisation as a diagram. Each
seller has a parent, the seller who recruited them, and together the sellers
form one tree under the seller `root`. The user can:

- click a seller to select and highlight it;
- add a new seller under the selected one;
- simulate a sale by the selected seller. The seller earns 3% commission and
  the amount in sales, the parent and the grandparent earn 1% each, and
  everyone who is credited is highlighted for up to two seconds;
- "act as" one seller. The figures are then shown only for that seller and
  its direct children.

All of this logic is in `src/App.tsx`, and the seller record is in
`src/types.ts`. This project models it in Dafny:

- `hierarchy.dfy` (module `Hierarchy`): the seller record and the parent links.
  - `Up(m, id, k)` is the seller `k` links above `id`.
  - `IsProperAncestor` is the ancestor relation.
  - A *rank* map that strictly decreases along every link (`RankedBy`) shows
    there is no cycle.
  - `IsDescendantOf` is the `while` loop of the application, proved against
    `IsProperAncestor`.
- `highlight.dfy` (module `Highlight`): the two highlight rebuilds.
  - `ClearHighlights` clears every flag. It runs before a sale and again two
    seconds after it.
  - `HighlightOnly` is the rebuild done on a click.
- `commission.dfy` (module `Commission`): `processCommission` as the pure
  function `Propagate`, and the whole sale as `Sale`.
  - `Walk` and `Visited` list the sellers that get credited.
  - `Earned` adds up what one seller earns along that list.
  - The lemmas state what a sale does to each seller, on any map and on a
    ranked tree.
- `visibility.dfy` (module `Visibility`): `getVisibleSellers` as `VisibleSellers`,
  with the visibility rule it amounts to.
- `store.dfy` (module `Store`): the application state as the class
  `SellerStore`, with fields for the sellers, node ids, edges, selection,
  sale amount and acting-as seller.
  - Each gesture is a method.
  - `ApplySale` runs `processCommission` as a bounded loop over the
    working copy and is proved equal to `Sale`; `SimulateSale` stores its result.
  - Every gesture keeps the store invariant `Valid`. The sellers form one
    ranked tree under `root` and each record is filed under its own id.
    Every stored seller is visible, all figures are non-negative, there is
    one node per seller, and the sale amount is non-negative.

Money is an exact `real`. JavaScript truthiness of a `string | null` is
`Truthy`: both `null` and `""` count as false. This matters for `parentId`,
the selected id and the acting-as id.

Where the code may surprise a reader, the model follows the code:

- Viewing as a seller keeps every other seller in the map with
  `visible = false`. It does not drop them.
- The direct children of the acting seller are visible as well as the seller
  itself.
- Clicking an unknown id still selects it and clears every highlight.
- A sale by an id that is not stored still clears all highlights and reports
  nothing.
- The descendant test in `getVisibleSellers` never changes the result,
  because a direct child is always a descendant (`Visibility.VisibleRule`).

## Model

| member | source | states |
|---|---|---|
| Hierarchy.Truthy | src/App.tsx:194 | a nullable string counts as true unless it is null or the empty string, the JavaScript truth test used at 73, 129, 166, 194 and 203 |
| Hierarchy.IsDescendantOf | src/App.tsx:192-199 | on an acyclic map the loop terminates and returns true exactly when `ancestorId` is reached from `sellerId` by one or more parent links; false for an unknown `sellerId` |
| Hierarchy.RankedIsAcyclic | src/App.tsx:192-199 | with a rank that decreases along links, no stored seller is its own proper ancestor, so the upward walk cannot cycle |
| Hierarchy.ReachesRoot | src/App.tsx:72-94 | in a ranked tree rooted at `root`, every stored seller is `root` or has `root` as a proper ancestor |
| Hierarchy.UpStaysEnded | src/App.tsx:193-197 | once the upward walk hits a missing parent it stays ended at every later step |
| Hierarchy.UpFromParent | src/App.tsx:196 | walking k+1 links from a seller is walking k links from its parent |
| Hierarchy.UpRankBelow | src/App.tsx:193-197 | every stored seller reached upward has a strictly smaller rank than the start |
| Highlight.ClearHighlights | src/App.tsx:176-184 | same keys; every flag false; every other field unchanged |
| Highlight.HighlightOnly | src/App.tsx:58-69 | same keys; `highlighted` true exactly on the clicked id; every other field unchanged |
| Highlight.HighlightOnlySingles | src/App.tsx:54-70 | after a click the highlighted set is exactly `{id}`, or empty when the id is not stored |
| Highlight.ClearLeavesNone | src/App.tsx:136-142 | after the clear-all nothing is highlighted |
| Highlight.ClearForgetsHighlights | src/App.tsx:176-184 | two maps that differ only in highlight flags clear to the same map |
| Highlight.ClearAfterHighlight | src/App.tsx:175-185 | the deferred clear undoes a click highlight, and clearing twice equals clearing once |
| Commission.Rate | src/App.tsx:151-153 | the rate table: 3% at level 0, 1% at levels 1 and 2, nothing deeper |
| Commission.Credit | src/App.tsx:158-163 | one visit's new record: sales grow by the amount only at level 0, commission by the amount times the level's rate, highlighted, every other field kept |
| Commission.Propagate | src/App.tsx:146-169 | `processCommission` keeps the key set of the working copy and always terminates (at most three levels) |
| Commission.Sale | src/App.tsx:134-172 | a sale keeps the key set; a sale by an id that is not stored only clears the highlights |
| Commission.Walk | src/App.tsx:146-168 | the credited ids from a level number at most 3 minus the level, and every one is stored |
| Commission.WalkSameLinks | src/App.tsx:166-168 | which sellers get credited depends only on the keys and the parent links |
| Commission.CreditKeepsWalk | src/App.tsx:158-168 | crediting the current seller does not change the rest of the walk, even though the walk reads the working copy it updates |
| Commission.PropagateKeeps | src/App.tsx:158-163 | id, name, parent link and `visible` of every seller are unchanged by propagation |
| Commission.PropagateSales | src/App.tsx:161 | only the level-0 seller's sales grow, by exactly the amount |
| Commission.PropagateCommission | src/App.tsx:150-162 | each seller's commission grows by the sum of the rates of the levels at which it is visited, times the amount |
| Commission.PropagateHighlight | src/App.tsx:162 | after propagation a seller is highlighted iff it was already or it was visited |
| Commission.PropagateEffect | src/App.tsx:146-169 | the complete new record of every seller after propagation: sales, commission, highlight, all else kept |
| Commission.SaleEffect | src/App.tsx:134-172 | the complete new record of every seller after a sale, on any map: highlight exactly when visited |
| Commission.WalkFollowsLinks | src/App.tsx:166-168 | the i-th credited id is the seller i links above the start, and level i is reached iff that seller is stored |
| Commission.VisitedIsChain | src/App.tsx:146-172 | a sale credits at most 3 sellers, the i-th one i links above the seller who sold; it stops at level 2, at a missing parent or at a parent that is not stored |
| Commission.WalkDistinct | src/App.tsx:166-168 | on an acyclic store no seller is credited twice in one sale |
| Commission.EarnedOnce | src/App.tsx:151-155 | on a walk without repeats a seller earns the rate of its own level times the amount, or nothing if not visited |
| Commission.EarnedNonNegative | src/App.tsx:151-155 | a non-negative amount earns a non-negative commission |
| Commission.SaleAtVisit | src/App.tsx:150-163 | on an acyclic store the i-th credited seller gains the amount in sales only at level 0, `Rate(i)` of it in commission, and is highlighted |
| Commission.SaleOnTree | src/App.tsx:134-172 | on an acyclic store: the seller gains the amount and 3%, parent and grandparent 1% each and no sales, all three highlighted; every other seller only loses its highlight |
| Commission.SaleAtLevel | src/App.tsx:150-168 | the stored seller i <= 2 links above the seller who sold gains `Rate(i)` of the amount (3% at 0, 1% at 1 and 2), sales only at level 0, and is highlighted |
| Commission.SaleOnlyAdds | src/App.tsx:144-163 | with a non-negative amount a sale keeps every non-money field and never lowers any seller's sales or commission |
| Commission.SaleHighlightsVisited | src/App.tsx:136-162 | right after a sale the highlighted sellers are exactly the credited ones; none when the id is not stored |
| Visibility.VisibleSellers | src/App.tsx:202-223 | the projection keeps every key and changes no field other than `visible` |
| Visibility.VisibleRule | src/App.tsx:202-223 | with no or empty acting-as the map comes back unchanged; otherwise `visible` becomes "is the acting seller or its direct child" for every seller |
| Visibility.VisibleOnlyInScope | src/App.tsx:205-221 | a visible seller is the acting seller or its descendant; a seller that is neither the acting seller nor its direct child is hidden |
| Visibility.VisibleIdempotent | src/App.tsx:202-223 | projecting twice with the same acting seller equals projecting once |
| Visibility.FourLevelLinks | src/App.tsx:192-199 | in the chain root <- A <- B <- C, A is an ancestor of C and not of root |
| Visibility.FourLevelScenario | src/App.tsx:202-223 | acting as A in that chain: all four stay in the map, A and B are visible, C (a grandchild) and root are hidden |
| Store.SiblingCountAppend | src/App.tsx:98 | appending the new edge raises its parent's sibling count by one and no other seller's |
| Store.SiblingCount | src/App.tsx:98 | `edges.filter(edge => edge.source === parent).length`: at most the number of edges, and zero exactly when no edge leaves `parent` |
| Store.Decimal | src/App.tsx:85 | the number printed by the template literal: one or more decimal digits, no leading zero unless the number is 0 |
| Store.DecimalRoundTrip | src/App.tsx:85 | reading the printed digits back gives the number, so the name carries exactly `count + 1` |
| Store.NewSeller | src/App.tsx:83-91 | the new record: its own id, the selected parent, zero sales and commission, not highlighted, visible, named "Seller " and the number of stored sellers plus one |
| Store.AddKeepsConsistent | src/App.tsx:83-125 | adding a zeroed, visible child of a stored seller, with its node, keeps the store invariant |
| Store.ChildKeepsTree | src/App.tsx:83-94 | hanging a new seller under a stored parent keeps one acyclic tree under `root` |
| Store.FiguresKeepConsistent | src/App.tsx:158-163 | changes to figures and highlights only keep the store invariant |
| Store.AttachChild | src/App.tsx:83-125 | the new seller under `p`, its node id and the edge `p-newId` from `p` are added, the invariant is kept, and `p` gains one sibling |
| Store.SellerStore.constructor | src/App.tsx:20-47 | the initial state holds the root seller alone (zero figures, no parent, visible), one node, no edges, nothing selected, amount 1000 |
| Store.SellerStore.Select | src/App.tsx:54-70 | selects the id, highlights exactly it (nothing if unknown), changes no other field, key, node or edge |
| Store.SellerStore.Commit | src/App.tsx:94-125 | the three state setters of `addSeller`: sellers, nodes and edges take the given values, nothing else changes |
| Store.SellerStore.AddSeller | src/App.tsx:72-126 | adds a seller iff the selection is truthy and is a node; then inserts the zeroed visible child with its node and edge and returns the sibling index; otherwise changes nothing; the invariant is kept |
| Store.ApplySale | src/App.tsx:134-172 | the updater's loop over the working copy (clear all, then credit level by level) yields exactly `Sale` of the start id and amount |
| Store.SellerStore.SimulateSale | src/App.tsx:128-189 | with no selection nothing changes; otherwise the sellers become exactly `Sale` of the selected id and amount; nodes and edges unchanged, no figure decreases, the invariant is kept |
| Store.SellerStore.ExpireHighlights | src/App.tsx:175-185 | the timer callback clears every highlight and changes nothing else |
| Store.SellerStore.SetSaleAmount | src/App.tsx:251 | the amount is the entry raised to zero when negative |
| Store.SellerStore.SetActingAs | src/App.tsx:267-278 | the empty choice means viewing all; any other id becomes the acting seller |
| Store.SellerStore.Connect | src/App.tsx:49-52 | a drawn connection appends an edge and leaves sellers, parent links and nodes alone |
| Store.SellerStore.View | src/App.tsx:226-234 | what the diagram shows: the sellers as they are when viewing all, otherwise each record with `visible` recomputed as "acting seller or its direct child" |
| Store.ValidIsTree | src/App.tsx:72-126 | in every valid store no seller is its own ancestor and every seller other than `root` descends from `root` |
| Store.ViewAllShowsEveryone | src/App.tsx:203 | viewing all, the projection is the store itself and every stored seller is visible |

## Left out

- Node positions: the fan-out angle and radius (`Math.cos`/`Math.sin`) are floating-point layout. The model keeps the node ids as a set and returns the sibling index the angle is computed from.
- The node list's order and its `type`/`position`/`data` fields: nodes are modelled as the set of their ids.
- Generating the new id with `uuidv4()`: `AddSeller` takes it as the parameter `freshId`, and requires it to be new.
- The `alert` dialogs and the disabled state of the buttons: these are browser I/O. A gesture with no selection is modelled as changing nothing.
- Scheduling by `setTimeout`: the 2000 ms delay and whatever other gestures happen before it fires. The callback itself is `ExpireHighlights`, which may be called at any later point.
- React may call a state updater twice in development mode. The model applies each update once.
- `Store.SellerStore.Connect`: reactflow's `addEdge` derives its own edge id and skips duplicates. The model appends the given edge as it is.
- `onNodesChange`/`onEdgesChange` (drag, removal) and all rendering. The effect that copies the projected records onto the nodes is the ghost function `View`.
- The seller card component in `src/components/SellerNode.tsx` is not part of this model. It only displays the stats when `visible` holds.
- IEEE-754 doubles: money is an exact `real`. There is no rounding of `amount * 0.03`, and non-finite or NaN results of `Number(...)` in the amount field are not modelled.
- JavaScript lookups of keys inherited from the object prototype (such as `"constructor"`) are not modelled. A key is found only when stored.
- `Visibility.VisibleSellers` is a ghost function because its descendant test is the existential `IsProperAncestor`. Its compiled counterpart is the loop `Hierarchy.IsDescendantOf`.
- `Hierarchy.IsDescendantOf` requires the links to be acyclic, witnessed by a rank. On a cycle the application's loop never ends. Every valid store is acyclic (`Store.ValidIsTree`).
- The rank is a proof witness only. It appears in the invariant `Valid` and in lemma parameters, never in the application's state.
