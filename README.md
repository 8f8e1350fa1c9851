# K-d tree and IPv4 subnet query, modelled in Dafny

The repository's core is a generic K-dimensional tree, `KDTree<K, T>` in
`kd_tree.hpp`. The IPv4 query program uses one with `K = 4` and `T = int`.
It stores each address as the point of its four dotted components. To
answer a query `a.b.c.d/prefix`, it turns the subnet into an inclusive 4-D
box and range-searches the tree with that box.

The model has three modules:

- `KdTree` (`kd_tree.dfy`) is a value model of the tree.
  - `Tree` is `Empty` or `Node(point, left, right)`.
  - Each recursive member of the class becomes a function that follows its
    branches: `Insert`, `Search`, `FindMin`, `Remove` and `RangeSearch`.
  - `Elems` is the multiset of stored points. `KdInvariant` is the split
    invariant: at depth `d` the left subtree holds points strictly smaller on
    axis `d % K`, and the right subtree holds points greater or equal.
  - The lemmas state what each operation promises on a tree that keeps the
    invariant.
- `KdTreeHeap` (`kd_tree_heap.dfy`) models the pointer structure.
  - `KDNode` and `KDTree` are classes whose methods update `point`, `left`,
    `right` and `root` in place, as the source does.
  - Each node carries the ghost fields `Repr` (the nodes it owns) and `Model`
    (its subtree as a `KdTree.Tree`).
  - Every recursive method is proved to produce the tree that the matching
    `KdTree` function computes. The public methods then inherit the `KdTree`
    lemmas.
- `IpsQuery` (`ips_query.dfy`) models the subnet-to-box step of
  `ips_query.cpp`.
  - It has the packing loop, the mask, `startIp` and `endIp`, and the
    unpacking loop, on `bv32` words and `bv8` bytes.
  - The main theorem says the box holds exactly the addresses of the subnet.
    It is connected to the tree's range search.

## Model

| member | source | states |
|---|---|---|
| KdTree.Axis | kd_tree.hpp:73 | the split axis `depth % K` is a valid coordinate index |
| KdTree.ElemsWellFormed | kd_tree.hpp:14 | every stored point has exactly K coordinates |
| KdTree.Insert | kd_tree.hpp:69-80 | insertion always yields a node and keeps every point K-dimensional |
| KdTree.InsertElems | kd_tree.hpp:69-85 | insertion adds exactly one occurrence of the point: `Elems(Insert(t, p)) == Elems(t) + {p}` |
| KdTree.InsertOnSide | kd_tree.hpp:73-77 | inserting a point that lies on one side of a split value into a subtree that lies on that side keeps the subtree on that side |
| KdTree.InsertPreservesInvariant | kd_tree.hpp:69-80 | insertion preserves the split invariant (ties go right) |
| KdTree.Search | kd_tree.hpp:88-98 | a successful search has found a stored point |
| KdTree.SearchCorrect | kd_tree.hpp:88-103 | on a tree that keeps the invariant, search returns true if and only if the point is stored |
| KdTree.FindMin | kd_tree.hpp:106-123 | findMin returns null exactly for an empty subtree, and otherwise a K-dimensional point |
| KdTree.FindMinMember | kd_tree.hpp:106-123 | the point findMin returns is stored in the subtree |
| KdTree.FindMinIsMinimal | kd_tree.hpp:106-123 | on a tree that keeps the invariant, no stored point is smaller than findMin's result on axis `dim` |
| KdTree.FindMinLowerBound | kd_tree.hpp:110-122 | findMin's result bounds the whole subtree from below on axis `dim`, including when only the left branch is followed |
| KdTree.Remove | kd_tree.hpp:126-153 | removal keeps every point K-dimensional |
| KdTree.RemoveAbsent | kd_tree.hpp:126-153 | removing a point that is not stored returns the tree unchanged |
| KdTree.RemoveOnSide | kd_tree.hpp:126-153 | removal keeps a subtree that lies on one side of a split value on that side |
| KdTree.RemoveElems | kd_tree.hpp:126-158 | on a tree that keeps the invariant, removal deletes exactly one occurrence: `Elems(Remove(t, p)) == Elems(t) - {p}` |
| KdTree.RemovePreservesInvariant | kd_tree.hpp:126-153 | removal, including the promotion of a minimum, preserves the split invariant |
| KdTree.RemoveLeftOnly | kd_tree.hpp:136-140 | left-only case: the node ends with no left child; its point is the left subtree's minimum on the node's axis; its right child holds the rest of the former left subtree |
| KdTree.BoxElemsCount | kd_tree.hpp:199-207 | the reference multiset of a box holds each point as often as it is stored when it passes the `inRange` test, and not at all otherwise |
| KdTree.BoxElemsOutside | kd_tree.hpp:209-217 | a subtree whose points all lie beyond the box on one axis holds no point of the box, so the pruning loses nothing |
| KdTree.RangeSearchSound | kd_tree.hpp:191-218 | on every tree, with or without the invariant, each point the search reports is stored and passes the `inRange` test |
| KdTree.RangeSearchComplete | kd_tree.hpp:191-218 | on a tree that keeps the invariant, the pruned search reports exactly the stored points in the box, with multiplicity (sound and complete as multisets) |
| KdTree.RangeSearchCount | kd_tree.hpp:191-226 | each point is reported as often as it is stored if it lies in the box, and never otherwise |
| KdTreeHeap.KDNode.constructor | kd_tree.hpp:18-19 | a new node holds the point and has no children |
| KdTreeHeap.Relink | kd_tree.hpp:134-140 | the field writes after a recursive call: the node gets its point and children, and stays valid |
| KdTreeHeap.InRange | kd_tree.hpp:200-206 | the `inRange` loop yields true exactly when the point lies in the inclusive box |
| KdTreeHeap.KDTree.constructor | kd_tree.hpp:52-53 | a new tree is empty |
| KdTreeHeap.KDTree.SetRoot | kd_tree.hpp:84 | storing a new root makes the tree that subtree |
| KdTreeHeap.KDTree.InsertRec | kd_tree.hpp:69-80 | updates the nodes in place, returns the same node (or a fresh leaf), and the subtree becomes `KdTree.Insert` of the old one |
| KdTreeHeap.KDTree.Insert | kd_tree.hpp:82-85 | the stored tree becomes `KdTree.Insert` of the old one and stays valid, so the invariant holds and one occurrence is added |
| KdTreeHeap.KDTree.SearchRec | kd_tree.hpp:88-98 | the pointer walk answers as `KdTree.Search` |
| KdTreeHeap.KDTree.Search | kd_tree.hpp:100-103 | search returns true if and only if the point is stored |
| KdTreeHeap.KDTree.FindMinRec | kd_tree.hpp:106-123 | returns null exactly for a null subtree, and otherwise a node of that subtree that holds `KdTree.FindMin`'s point |
| KdTreeHeap.KDTree.RemoveRec | kd_tree.hpp:126-153 | the returned subtree is `KdTree.Remove` of the old one; a deleted leaf gives null |
| KdTreeHeap.KDTree.RemoveBelow | kd_tree.hpp:148-152 | when the node holds another point, removal descends into the child its coordinate picks |
| KdTreeHeap.KDTree.RemoveAt | kd_tree.hpp:131-146 | when the node holds the point: the right minimum is promoted; or, with only a left child, the left minimum is promoted and the rest moves right; or a leaf is dropped |
| KdTreeHeap.KDTree.Remove | kd_tree.hpp:155-158 | the stored tree becomes `KdTree.Remove` of the old one and stays valid; an absent point changes nothing |
| KdTreeHeap.KDTree.RangeSearchRec | kd_tree.hpp:191-218 | appends to `results` exactly `KdTree.RangeSearch`'s points, in visiting order |
| KdTreeHeap.KDTree.RangeSearch | kd_tree.hpp:220-226 | the result is the stored points in the box, as a multiset |
| IpsQuery.TruncateValue | ips_query.cpp:59 | `static_cast<uint8_t>` keeps a component modulo 256, so a component in 0..255 is kept as it is |
| IpsQuery.Pack | ips_query.cpp:57-60 | the packed word keeps the four bytes: unpacking it gives them back |
| IpsQuery.PackFour | ips_query.cpp:57-60 | after four steps the packing loop's word is the first byte shifted by 24, the second by 16, the third by 8, and the fourth, or-ed together |
| IpsQuery.PackAddress | ips_query.cpp:57-60 | the packing loop's word is the four components, each cast to `uint8_t`, with the first one most significant |
| IpsQuery.UnpackBounds | ips_query.cpp:68-72 | the unpacking loop writes byte `i` from the bottom of each word to coordinate `3 - i`: the points are the words' bytes, most significant first |
| IpsQuery.ShiftedByte | ips_query.cpp:70-71 | `(w >> (i * 8)) & 0xFF` is coordinate `3 - i` of the unpacked word |
| IpsQuery.SubnetBounds | ips_query.cpp:56-72 | the block computes `lowPoint` and `highPoint` as the unpacked `startIp` and `endIp` |
| IpsQuery.PackUnpack | ips_query.cpp:57-72 | packing the bytes of a word gives back the word |
| IpsQuery.AddressPoint | ips_query.cpp:56-72 | a point whose components are in 0..255 is the unpacking of its packed address |
| IpsQuery.WordIsAddress | ips_query.cpp:69-72 | every unpacked coordinate lies in 0..255 |
| IpsQuery.Mask | ips_query.cpp:63 | for every prefix from 0 to 32, the host bits `~mask` form a run of ones at the bottom |
| IpsQuery.MaskHostBits | ips_query.cpp:63 | the mask keeps exactly the top `prefix` bits: `~mask` is `2^(32 - prefix) - 1` |
| IpsQuery.LowPoint | ips_query.cpp:64-72 | `lowPoint`, the unpacked `startIp`, is an address: four coordinates in 0..255 |
| IpsQuery.HighPoint | ips_query.cpp:65-72 | `highPoint`, the unpacked `endIp`, is an address: four coordinates in 0..255 |
| IpsQuery.IntervalIffSamePrefix | ips_query.cpp:63-65 | `startIp <= x <= endIp` if and only if `x` shares the first `prefix` bits with the base address |
| IpsQuery.StartBelowEnd | ips_query.cpp:63-65 | `startIp <= ipUint <= endIp` |
| IpsQuery.ZeroMask | ips_query.cpp:63-65 | for prefix 0, `startIp` is 0 and `endIp` is 0xFFFFFFFF |
| IpsQuery.PrefixZero | ips_query.cpp:63-72 | for prefix 0, the box is 0.0.0.0 to 255.255.255.255 |
| IpsQuery.FullMask | ips_query.cpp:63-65 | for prefix 32, `startIp` and `endIp` are both the base address |
| IpsQuery.PrefixFull | ips_query.cpp:57-72 | for prefix 32, both corners are the base components cast to bytes |
| IpsQuery.PrefixFullAddress | ips_query.cpp:56-72 | for prefix 32 and components in 0..255, both corners are the base address itself |
| IpsQuery.CornersOrdered | ips_query.cpp:62-72 | both corners are addresses, and `lowPoint[i] <= highPoint[i]` on every axis |
| IpsQuery.UnpackAnd | ips_query.cpp:64 | the bytes of `x & y` are the bytes of `x` and `y`, anded byte by byte |
| IpsQuery.UnpackOr | ips_query.cpp:65 | the bytes of `x \| y` are the bytes of `x` and `y`, ored byte by byte |
| IpsQuery.UnpackNot | ips_query.cpp:65 | the bytes of `~x` are the bytes of `x`, complemented |
| IpsQuery.MaskBytes | ips_query.cpp:63 | every byte of the mask has its host bits as a run of ones at the bottom |
| IpsQuery.BetweenIffAgree | ips_query.cpp:69-72 | byte by byte: a string lies between the masked base and the masked base with host bits set exactly when it agrees with the base under the mask |
| IpsQuery.BetweenInBox | ips_query.cpp:69-72 | bytes lie between two byte strings exactly when their `int` points lie in the box of those points |
| IpsQuery.BoxIffAgree | ips_query.cpp:63-72 | for any mask whose host bits form a low run, an address's point lies in the unpacked box exactly when the address agrees with the base under the mask |
| IpsQuery.InBoxIffSamePrefix | ips_query.cpp:62-75 | an address lies in the box of `base/prefix` if and only if it shares the first `prefix` bits with the base |
| IpsQuery.SubnetQuery | ips_query.cpp:56-75 | searching a tree of addresses with the subnet's box reports each stored address as often as it is stored when it shares the first `prefix` bits with the base, and never otherwise |

## Left out

- Building the program, the IPv6 variant, `ips_generator.cpp` and `kd_tree_demo.cpp` are not part of this model.
- The I/O of `ips_query.cpp` is not modelled: reading `ips.txt`, the prompt loop, the `/` syntax check, `std::stoi` and printing the results. `parseIP` is not modelled either. The model starts from the four parsed components and the parsed prefix.
- A prefix outside 0..32 is a precondition. The shift `0xFFFFFFFF << (32 - prefix)` is undefined in C++ for such prefixes.
- Components outside 0..255 are not a precondition of the bound computation, because the packing loop casts them with `static_cast<uint8_t>` (`Truncate`). The properties that compare the box with the base address itself require components in 0..255 (`IsAddress`).
- `clear`, the destructor and the `delete` of a removed leaf are memory management only. The heap model drops the node instead.
- `display` and `printSubtree` only print, so they are not modelled.
- Balance, height and running time are not modelled.
- The tree is modelled with `T = int` and K as a positive parameter. The query program instantiates `KDTree<4, int>`.
- The order of the range-search results is kept exactly by `RangeSearchRec`, but the properties are stated up to order, as multisets.
- KdTreeHeap.Relink: after a recursive call it writes the node's point and both children. The source writes only the child that changed. The other fields get the values they already hold, except for the promoted point in `RemoveAt`.
- KdTreeHeap.KDTree.RemoveAt: the source overwrites `node->point` before the recursive call that removes the promoted point. The model writes it after the call. The call only reads the copied point and nodes below this one, so the resulting tree is the same.
- KdTreeHeap.KDTree.Insert: its contract ties the new tree to `KdTree.Insert` and keeps `Valid()`, which includes the split invariant. That exactly one occurrence is added is stated on the function (`KdTree.InsertElems`), not repeated in the method's `ensures`.
- KdTreeHeap.KDTree.Remove: likewise, that exactly one occurrence disappears is `KdTree.RemoveElems` on the function the method is tied to.
