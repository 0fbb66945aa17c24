# QuadTree: a verified model of the spatial index

The program keeps its sprites in a region quadtree (`public_html/QuadTree.js`).
Each node has a rectangular region, a level, its own list of stored entries
(`{elem, x, y, width, height}`) and either no children or exactly four.
`add` stores an entry in the child whose quarter `getQuarter` names. An
entry that crosses one of the node's two borders stays in the node, and so
does one that starts exactly on a border and extends past it, although it
lies inside a bottom (right) child. A leaf that already
holds `MAX_SPRITES_NUM` (4) entries and whose level is below `MAX_LEVELS_NUM` (4) appends
the entry, splits and hands every entry that now fits a child down to it.
`getElemsNearby` returns the elems of the node's own list, followed by what
the one child the query rectangle classifies into returns. `count` counts
the subtree. `clear` turns a node back into an empty leaf.

The project has three modules:

- `Quadrants` (`quadrants.dfy`) holds rectangles, the four quarters and the
  `nodes` record indexed by quarter. It also holds `parseInt(n / 2)` as
  truncating halving, the border classification of `getQuarter` and the
  child regions that `split` computes. It proves how those regions tile
  their parent.
- `SpatialTree` (`spatial_tree.dfy`) defines the tree as a value, with each
  operation as a function on it. It proves conservation, placement, the
  split threshold, the depth ceiling and the shape of a query about those
  functions.
- `Index` (`quadtree.dfy`) is the node as the mutable object the program
  uses. Class `QuadTree` has the node's fields and a footprint `Repr`.
  - `add`, `split` and `clear` are methods that update it in place.
  - The redistribution loop and both loops of `getElemsNearby` are `while`
    and `for` loops with invariants.
  - A ghost field `Model` holds the node's value as a `SpatialTree.Tree`.
  - Every method is proved to change `Model` exactly as the matching
    `SpatialTree` function does. The lemmas about those functions therefore
    describe the object too.

The source's conventions map onto the model as follows:

- `getQuarter`'s `false` becomes `None`.
- Its quarter names become `Quarter` values, and `this.nodes[quarter]`
  becomes `Quad.Get`.
- JavaScript arrays become sequences, and `splice(i, 1)` becomes
  `s[..i] + s[i + 1..]`.
- Coordinates are integers, and `parseInt(n / 2)` truncates toward zero for
  negative `n` as well.
- `elem` is a type parameter the tree never inspects.

Two details of `add` (`public_html/QuadTree.js:85`) shape the model:

- `add` tests the list length before it appends, so a leaf splits on its
  fifth entry.
- The second branch is also taken by a split node that holds 4 or more
  entries when the new entry crosses one of its borders. `split` then does
  nothing and the loop moves nothing, because every entry kept at that
  node crosses a border (`SpatialTree.AddPlaced`).

## Model

| member | source | states |
|---|---|---|
| Quadrants.Half | public_html/QuadTree.js:146-147 | `parseInt(n/2)` on an integer with |n| < 2·10^21: twice the result is within 1 of n and never beyond it, toward zero, for either sign |
| Quadrants.Classify | public_html/QuadTree.js:198-240 | no quarter exactly when the rectangle crosses the horizontal or the vertical border. Otherwise the quarter is a top one iff the rectangle starts on or above the horizontal border, and a left one iff it starts on or left of the vertical border |
| Quadrants.ChildrenDisjoint | public_html/QuadTree.js:146-152 | the four child regions split creates never share a cell |
| Quadrants.ChildrenTileEven | public_html/QuadTree.js:146-152 | for even width and height, a cell is in the parent region iff it is in one of the four child regions |
| Quadrants.ChildBounds | public_html/QuadTree.js:146-152 | every child region is `parseInt(width/2)` by `parseInt(height/2)` and, for non-negative extents, lies inside the parent |
| Quadrants.ChildrenCover | public_html/QuadTree.js:146-152 | for any non-negative extents, a cell is in some child region iff it is in the parent left of x + 2·Half(width) and above y + 2·Half(height): the children miss exactly a 1-unit strip on the right for an odd width and on the bottom for an odd height |
| Quadrants.OddWidthLeavesStrip | public_html/QuadTree.js:146-152 | for an odd width, every cell of the parent's rightmost column is in the parent and in no child region |
| Quadrants.OddHeightLeavesStrip | public_html/QuadTree.js:146-152 | for an odd height, every cell of the parent's bottom row is in the parent and in no child region |
| Quadrants.StartOnBorderStays | public_html/QuadTree.js:201-202 | an entry (10,50,5,5) in a node (0,0,100,100) lies inside the bottom-left child but getQuarter classifies it into no quarter, since it starts on the horizontal border and is neither top nor bottom |
| Quadrants.ClassifiedInsideChild | public_html/QuadTree.js:198-205 | for even extents, a rectangle inside the node that getQuarter puts in quarter q lies inside child q's region |
| SpatialTree.EmptyLeaf | public_html/QuadTree.js:20-33 | a new node: the given region and level, no children, well-formed, nothing stored |
| SpatialTree.GetQuarter | public_html/QuadTree.js:188-243 | a leaf classifies nothing. A split node returns no quarter exactly when the rectangle crosses one of its borders |
| SpatialTree.Split | public_html/QuadTree.js:140-154 | a leaf gets four empty children one level down over the child regions. A split node is returned unchanged. Region, level and list never change, and well-formedness is kept |
| SpatialTree.Add | public_html/QuadTree.js:78-110 | add keeps the tree well-formed, keeps the node's region and level, and never removes a node's children |
| SpatialTree.Redistribute | public_html/QuadTree.js:90-104 | the redistribution loop keeps the tree well-formed and split, and keeps region and level |
| SpatialTree.Move | public_html/QuadTree.js:97-98 | one moving step of the loop keeps the tree well-formed with the same region and level, removes exactly entry i from the list and replaces child q by the child with that entry added |
| SpatialTree.Clear | public_html/QuadTree.js:122-138 | clear leaves a leaf with the same region and level and no contents |
| SpatialTree.AddContents | public_html/QuadTree.js:78-110 | after add, the multiset of stored entries is the old one plus exactly the new entry: nothing is lost or duplicated |
| SpatialTree.RedistributeContents | public_html/QuadTree.js:90-104 | moving entries down (add to the child, then splice) keeps the multiset of stored entries |
| SpatialTree.AddCount | public_html/QuadTree.js:156-166 | each add raises the number of stored entries, and so count(), by exactly one |
| SpatialTree.AddPlaced | public_html/QuadTree.js:78-110 | add keeps the placement invariant: a split node keeps only entries that cross a border, and every entry below child q classifies into q |
| SpatialTree.RedistributePlaced | public_html/QuadTree.js:90-104 | the redistribution loop ends with the placement invariant whenever the entries it has stepped over all cross a border |
| SpatialTree.AddBounded | public_html/QuadTree.js:85-109 | add keeps every leaf whose level is below MAX_LEVELS_NUM at no more than MAX_SPRITES_NUM entries |
| SpatialTree.RedistributeBounded | public_html/QuadTree.js:90-104 | the redistribution loop keeps the children within that bound |
| SpatialTree.AddDepthOk | public_html/QuadTree.js:85 | add never gives children to a node at level MAX_LEVELS_NUM or deeper |
| SpatialTree.RedistributeDepthOk | public_html/QuadTree.js:90-104 | the redistribution loop keeps that depth ceiling in the children |
| SpatialTree.DepthCeiling | public_html/QuadTree.js:85 | in a tree that keeps the depth ceiling and whose root's level is at most MAX_LEVELS_NUM, no node's level exceeds MAX_LEVELS_NUM |
| SpatialTree.AddToLeaf | public_html/QuadTree.js:85-109 | add to a leaf keeps it a leaf, simply appending, exactly when it holds fewer than MAX_SPRITES_NUM entries or is at MAX_LEVELS_NUM or deeper |
| SpatialTree.RedistributeKeeps | public_html/QuadTree.js:90-104 | from index i on, the loop keeps at the node exactly the entries that cross a border, in their order |
| SpatialTree.RedistributeHands | public_html/QuadTree.js:90-104 | from index i on, the loop hands child p exactly the entries that classify into p |
| SpatialTree.SplitOnAdd | public_html/QuadTree.js:85-104 | an add that finds MAX_SPRITES_NUM entries in a leaf whose level is below MAX_LEVELS_NUM splits it. The node keeps exactly the old and new entries that cross its borders, and child q gets exactly those that classify into q |
| SpatialTree.NearbyEntries | public_html/QuadTree.js:168-186 | the entries a query visits begin with the node's own list, and are just that list when no quarter is classified |
| SpatialTree.ElemsNearby | public_html/QuadTree.js:168-186 | the query result begins with the elems of the node's own list, and is just those when no quarter is classified |
| SpatialTree.ElemsNearbyStep | public_html/QuadTree.js:168-186 | a query returns the node's elems in list order, followed by what the classified child's query returns, or nothing more when no quarter is classified |
| SpatialTree.NearbyStored | public_html/QuadTree.js:168-186 | every entry a query visits is stored in the tree, counted with multiplicity |
| SpatialTree.NearbyFindsEntry | public_html/QuadTree.js:168-186 | in a tree with the placement invariant, a query with a stored entry's own rectangle visits that entry |
| SpatialTree.NearbyFindsElem | public_html/QuadTree.js:168-186 | hence getElemsNearby with a stored entry's own rectangle returns that entry's elem |
| SpatialTree.NearbyLength | public_html/QuadTree.js:168-186 | a query returns as many elems as the lists of the nodes on its descent path hold |
| Index.QuadTree.constructor | public_html/QuadTree.js:20-33 | a new node has the given region and level, an empty list and no children, and owns only itself |
| Index.QuadTree.GetQuarter | public_html/QuadTree.js:188-243 | a leaf returns no quarter. A split node returns none exactly when the rectangle crosses a border, and the quarter's top/left sides match the rectangle's start against the borders |
| Index.QuadTree.Count | public_html/QuadTree.js:156-166 | count sums the node's list length and the four children's counts in the source's order: it is at least the list length and equals it on a leaf; its value as a whole is stated by CountIsSize |
| Index.QuadTree.CountIsSize | public_html/QuadTree.js:156-166 | count() is the number of entries stored in the subtree, with multiplicity |
| Index.QuadTree.Add | public_html/QuadTree.js:78-110 | add keeps the object invariant, allocates only fresh nodes and changes the tree exactly as SpatialTree.Add does |
| Index.QuadTree.AddRaisesCount | public_html/QuadTree.js:78-110 | after add on a valid node, the node is still valid and count() is exactly one more than before |
| Index.QuadTree.Redistribute | public_html/QuadTree.js:90-104 | the in-place loop (add to the child, splice, or step over) changes the tree exactly as SpatialTree.Redistribute does from index 0 |
| Index.QuadTree.AddToChild | public_html/QuadTree.js:83 | delegating to child q changes only that child, exactly as SpatialTree.Add on its tree, and leaves this node's list and children unchanged |
| Index.QuadTree.Append | public_html/QuadTree.js:87 | appending puts the entry at the end of the list and changes nothing else |
| Index.QuadTree.Splice | public_html/QuadTree.js:98 | `splice(i, 1)` removes exactly entry i and changes nothing else |
| Index.QuadTree.Split | public_html/QuadTree.js:140-154 | split changes the tree as SpatialTree.Split does. A split node keeps its children and footprint, and the list is never touched |
| Index.QuadTree.NewLeaves | public_html/QuadTree.js:144-152 | the four new children are distinct fresh empty leaves one level down over the child regions |
| Index.QuadTree.NewChildren | public_html/QuadTree.js:140-154 | a node given four such leaves as children satisfies the object invariant |
| Index.QuadTree.Clear | public_html/QuadTree.js:122-138 | after clear the node is an empty leaf owning only itself, with count() 0 and region and level unchanged. Every former child is itself an empty leaf |
| Index.QuadTree.ClearChildren | public_html/QuadTree.js:130-136 | clearing the four children leaves each an empty leaf owning only itself |
| Index.QuadTree.GetElemsNearby | public_html/QuadTree.js:168-186 | the two loops return exactly SpatialTree.ElemsNearby of the model |

## Left out

- `draw` (lines 35-76) and the `colors` array are rendering on a canvas, which is I/O.
- `clone` (lines 112-120) copies properties reflectively, and the tree's operations never call it.
- In `clear`, the loop that sets each list slot to `null` before the list is replaced (lines 124-127) has no effect observable through the modelled operations once the list is replaced.
- JavaScript numbers are doubles. Coordinates are modelled as unbounded integers, so three things are not modelled:
  - fractional coordinates, and `parseInt` of a fraction;
  - the inexact addition of doubles above 2^53;
  - `parseInt` reading exponent notation: once |n| >= 2·10^21, `parseInt(n/2)` is no longer halving (`parseInt(1e21)` is 1).
- The sprite records are treated as immutable values. The source creates them with object literals and never changes them, so aliasing between them is not modelled.
- `MAX_SPRITES_NUM` and `MAX_LEVELS_NUM` are fixed constants, as in the source; they are not parameters.
- Index.QuadTree.Count: its own ensures bound the result only by the node's list. That it is the number of stored entries is stated by the lemma `Index.QuadTree.CountIsSize`.
- Index.QuadTree.Valid does not include placement, the split threshold or the depth ceiling. Those are proved about `Model` through the `SpatialTree` lemmas, which apply because every method follows the `SpatialTree` functions.
