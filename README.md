# CSG scene graph, modelled in Dafny

A model of the scene-graph core of a WebGPU signed-distance-field renderer.
The renderer's scenes are trees of constructive-solid-geometry nodes:
- operations combine their children by union, intersection or difference, with a smoothing radius;
- leaves are spheres, with a 4×4 transform and a radius.

Each node carries an axis-aligned bounding box (AABB). The tree is flattened into a list and serialised into 32-float records, which a shader walks. Two revisions of this engine are modelled.

**The blob revision (`src/blob-tree.ts`, module group `Blob*`, class `BlobTree.SceneGraph`).**
- **State.** The scene graph holds a map from string ids to nodes, the root id, and an id counter.
  - The class keeps these as fields that its methods reassign: `nodes` (a `map`), `rootId` and `nextId`.
  - Two ghost fields, `depth` and `bound`, give every node its distance below the top of its tree. They stand for the acyclicity of the parent links.
- **Invariant.** `Valid()` holds before and after every method:
  - the store is *linked*: a node's parent is a stored operation that lists it, and an operation lists each child once;
  - the root is a stored node without a parent;
  - no id that `generateId` has yet to hand out is in use, and neither is the empty string;
  - every box is the one `updateNodeAABB`'s rule gives.
- **How the methods are specified.** Each mutating method states its new store as an edit of the old one (`Adopt`, `Pruned`, `Assign`), up to boxes. `FreshUnique` proves that, in a linked store with up-to-date boxes, the boxes follow from the structure. Together these fix the whole new state.
- **Flattening and serialising.** `flattenTree` is proved against the pre-order walk of the node tree: positions, `entry` and `exit`. `serializeTreeForWebGPU` is proved to lay the 32-slot records end to end.

**The Loro revision (`src/csg-tree.ts`, module group `Csg*`, class `CsgDocument.CsgTree`).**
- **State.** The Loro CRDT document is a foreign store. Here it is an immutable ordered tree value (`CsgModel.Tree`), held in the field `root` that the methods replace.
  - A node handle is the path of child positions from the root.
  - The id Loro hands a new node is a parameter.
- **Live box rule.** Operation boxes are dilated by `smoothing * 4`.
- **`getNormalizedTree`.** Its parts are modelled imperatively, over a `map` from ids to normalised nodes, and each is proved against a functional reference:
  - `buildNormalizedTree` and its pairing `while` loop, against `Normalize` and `Binarize`;
  - `recalculateAABBs`, against `Recalc`;
  - `getMaxSmoothing`, against `MaxSmoothing`.
- **Flattening and serialising.** `flattenTree` is proved against the pre-order walk of the normalised tree. The serialiser is proved against its record layout.

Coordinates are `real` triples and a `mat4` is a length-16 `seq<real>` with the translation at indices 12–14. Serialised output is a `seq<real>` or an `array<real>`.

## Model

| member | source | states |
|---|---|---|
| `NodeIds.IdOf` | src/blob-tree.ts:104-106 | The id for counter value `n` is `node-` followed by the decimal digits of `n`. |
| `NodeIds.ParseNatToString` | src/blob-tree.ts:104-106 | The decimal rendering of a counter value reads back as that value. |
| `NodeIds.IdOfInjective` | src/blob-tree.ts:104-106 | Different counter values give different ids, so `generateId` never hands out an id twice. |
| `BlobTree.SceneGraph.GenerateId` | src/blob-tree.ts:104-106 | Returns `node-${nextId}` and increments the counter. The id is not in the store and is not the empty string, and no later counter value gives it again. Nothing else changes. |
| `BlobTree.SceneGraph.constructor` | src/blob-tree.ts:98-102 | Starts with an empty store, no root and the counter at 0, and satisfies the invariant. |
| `Geometry.ExpandByAabb` | src/blob-tree.ts:72-76 | The componentwise min/max of two boxes is the least box enclosing both. |
| `Geometry.SphereAabb` | src/blob-tree.ts:77-90 | A sphere's box contains the sphere's centre, which is the matrix translation at indices 12–14. |
| `Geometry.SphereAabbShape` | src/blob-tree.ts:77-90 | A sphere's box is centred on the translation and each side is twice the radius. |
| `Geometry.Hull` | src/blob-tree.ts:221-228 | The box of an operation: `create()` expanded by each child's box in turn. It contains the origin and every child box, and it is the least box that does. |
| `Geometry.ExpandByScalar` | src/csg-tree.ts:90-94 | Subtracting a scalar from the minima and adding it to the maxima gives a box enclosing the original, when the scalar is not negative. |
| `Geometry.ExpandByScalarShape` | src/csg-tree.ts:90-94 | Expanding by a scalar keeps the centre and makes every side longer by twice the scalar. |
| `Common.OpCode` | src/blob-tree.ts:6-10 | The shader code of an operation (0, 1, 2) reads back as that operation. |
| `Common.IndexOf` | src/blob-tree.ts:325-327 | `indexOf` gives the first position of the element, or -1 exactly when the element is absent. |
| `BlobStore.RefreshShape` | src/blob-tree.ts:210-236 | `updateNodeAABB`, as a function on stores, changes boxes only and keeps the store linked. |
| `BlobStore.RefreshFresh` | src/blob-tree.ts:210-236 | In a store where only the boxes from `id` up may be stale, `updateNodeAABB(id)` leaves every box up to date. |
| `BlobStore.ReboxStale` | src/blob-tree.ts:230-235 | Giving a node its rule box moves the staleness up to its parent; at a node without a parent, every box is up to date. |
| `BlobEdit.FreshUnique` | src/blob-tree.ts:210-236 | Two linked stores with the same structure and all boxes up to date are equal: the box rule leaves no freedom. |
| `BlobEdit.AsWrittenSelfParent` | src/blob-tree.ts:151-177 | As written, `addChild(id, id)` on a stored operation makes the node list itself and name itself as parent, which no linked store allows. |
| `BlobEdit.AdoptLinks` | src/blob-tree.ts:172-176 | Linking a lone child under another stored operation adds the child to the parent's children exactly once, sets the child's `parent`, leaves every other node alone, and keeps the store linked. |
| `BlobEdit.AdoptDrops` | src/blob-tree.ts:155-170 | When the parent is missing or is a leaf (or is the child itself), `addChild` deletes the child from the store. |
| `BlobEdit.AdoptStale` | src/blob-tree.ts:172-176 | After linking a lone child into a store with up-to-date boxes, only the boxes from the child up may be stale. |
| `BlobEdit.Without` | src/blob-tree.ts:195 | `filter(id => id !== nodeId)` keeps exactly the other children and drops every copy of the id, and a list without duplicates stays without duplicates. |
| `BlobEdit.WithoutOrder` | src/blob-tree.ts:195 | In a list without duplicates, filtering out the id at position `k` leaves the children before it and the children after it, in their order. |
| `BlobEdit.DescendsChildren` | src/blob-tree.ts:188-190 | The nodes below a node are the node itself and the nodes below its children, so removing each child in turn removes everything below. |
| `BlobEdit.PruningFinish` | src/blob-tree.ts:192-199 | Once the children are removed, filtering the node out of its parent and deleting it leaves the pruned store, which is linked. Only the boxes from the parent up may be stale. |
| `BlobEdit.AssignStale` | src/blob-tree.ts:238-251 | Assigning new transform and scale to a leaf keeps the store linked. Only the boxes from that leaf up may be stale. |
| `BlobEdit.Assign` | src/blob-tree.ts:249 | `Object.assign` with the given keys replaces exactly the given transform and scale, and keeps id, name, parent and box. |
| `BlobShape.WalkDistinct` | src/blob-tree.ts:294-306 | The depth-first walk from a stored node never meets an id twice. |
| `BlobShape.ParentPosition` | src/blob-tree.ts:294-306 | Every node of a walk except the first is a child of a node earlier in the walk. |
| `BlobShape.ChildPosition` | src/blob-tree.ts:294-306 | Child `k` of a node of the walk comes right after the walks of its earlier siblings. |
| `BlobFlatten.Dfs` | src/blob-tree.ts:294-306 | `dfs` appends the pre-order walk of the tree it starts at, and records each node's position in the index map. Keys outside that tree keep their positions. |
| `BlobFlatten.UpStep` | src/blob-tree.ts:324-350 | The last child's subtree ends where its parent's subtree ends. Otherwise the next sibling sits right after the subtree. |
| `BlobFlatten.NodeExit` | src/blob-tree.ts:322-353 | The ancestor loop finds the position right after the node's subtree: the next sibling's position, or that of the nearest ancestor's next sibling, or -1 at the end of the walk, which includes the root. |
| `BlobFlatten.FlatEntry` | src/blob-tree.ts:310-362 | One flattened node: the stored node, its own position, `entry` (the first child's position, which is the next position), or -1 without children, and `exit` as `NodeExit` says. |
| `BlobFlatten.FlattenWalk` | src/blob-tree.ts:310-364 | The second loop gives one flattened node per node of the walk, in order, each placed as `FlatEntry` says. |
| `BlobTree.SceneGraph.FlattenTree` | src/blob-tree.ts:284-367 | Returns `[]` without a root. Otherwise it has one entry per node of the root's pre-order walk, with `flattenedIndex` equal to the position, `entry` the first child's position or -1, and `exit` the position after the node's subtree or -1. |
| `BlobSerialize.RecordFields` | src/blob-tree.ts:459-509 | A record has exactly 32 slots: [0] = 0 for an operation and 1 for a leaf; [1..2] = op and smoothing, or scale and 0; [4..6] and [8..10] = box min and max; [12..14] = entry, exit and flattenedIndex; slots 3, 7, 11 and 15 are 0; [16..31] = the leaf's transform or the identity. |
| `BlobSerialize.SerializeFlattenedNode` | src/blob-tree.ts:459-509 | Returns a fresh 32-slot array holding exactly that record. |
| `BlobSerialize.SerializeFlat` | src/blob-tree.ts:520-537 | The buffer is the records laid end to end. An empty list gives an empty buffer. |
| `BlobSerialize.RecordAt` | src/blob-tree.ts:526-534 | The buffer has 32·n slots and node `i`'s record occupies `[32i, 32i+32)`. |
| `GpuRecord.ConcatSlices` | src/blob-tree.ts:530-533 | Records of 32 slots each, laid end to end, put record `i` at `[32i, 32i+32)`. |
| `GpuRecord.WriteRecord` | src/blob-tree.ts:459-500 | The running-offset writes of the four `vec4` groups and the `set` of the matrix at 16 produce `Pack`'s layout. |
| `GpuRecord.PackLayout` | src/blob-tree.ts:459-500 | The slot-by-slot layout of a record: kind, two data slots, box corners with zero padding, four index slots, matrix. |
| `BlobTree.SceneGraph.SerializeTreeForWebGpu` | src/blob-tree.ts:519-539 | A fresh buffer made of the records of the flattened tree, in order, 32 slots each. The buffer is empty without a root. |
| `BlobTree.SceneGraph.UpdateNodeAabb` | src/blob-tree.ts:210-236 | The new store is `Refresh` of the old store: an unknown id changes nothing; otherwise the node gets its sphere box or the hull of its children's boxes, and then its parent is updated. Root, counter and links do not change. |
| `BlobTree.SceneGraph.AddChild` | src/blob-tree.ts:151-177 | The new store is `Adopt`. A missing parent, a leaf parent or the child itself as parent deletes the child. A missing child changes nothing. Otherwise the child is listed once under the parent, names the parent, and the store stays linked. |
| `BlobTree.SceneGraph.AddOperationNode` | src/blob-tree.ts:107-129 | The new operation, with no children, gets the next id. With a parent id it is linked as `addChild` does. Without one it becomes the root only when there is none. Afterwards the boxes are up to date. |
| `BlobTree.SceneGraph.AddLeafNode` | src/blob-tree.ts:130-150 | The new leaf, with its sphere box, gets the next id and is linked or dropped as `addChild` does. Afterwards the boxes are up to date. |
| `BlobTree.SceneGraph.UpdateLeafNodeProperties` | src/blob-tree.ts:238-251 | A missing id or an operation changes nothing. A leaf takes the given transform and scale, and the boxes from it up are brought up to date. |
| `BlobTree.SceneGraph.RemoveNode` | src/blob-tree.ts:178-208 | An unknown id changes nothing. Otherwise the store loses the node and everything below it, the node is filtered out of its parent's children, the root is cleared if it was the node, and every box is up to date. |
| `BlobTree.SceneGraph.RemoveChildren` | src/blob-tree.ts:188-190 | Removing a copy of the children one by one leaves the store pruned of all of them, with the node listing none of them. |
| `BlobTree.SceneGraph.Detach` | src/blob-tree.ts:192-207 | Filters the node out of its parent, deletes it, clears the root if it was the node, and updates the parent's box chain. |
| `BlobTree.RemoveFacts` | src/blob-tree.ts:178-208 | After the children are gone, unlinking the node gives the pruned store and keeps the invariant. The root is kept unless it was the node. |
| `BlobTree.SceneGraph.Traverse` | src/blob-tree.ts:258-277 | Returns the callback's calls: nothing when the start node is missing; otherwise each node of the start node's pre-order walk, with `currentDepth` plus its depth below the start. An empty start id means the root. |
| `BlobTree.VisitedStep` | src/blob-tree.ts:271-275 | The visits of child `i`, one level deeper, extend the visits of the walk so far. |
| `CsgModel.HoldsLinked` | src/csg-tree.ts:284-317 | In a map that holds a normalised tree, every child a node lists names that node as parent, and every node except the top one is listed by its parent. |
| `CsgLive.RefreshedFresh` | src/csg-tree.ts:183-215 | `updateNodeAABB` at a node whose stale ancestors all lie on its path leaves every box up to date. |
| `CsgLive.RefreshedAt` | src/csg-tree.ts:183-215 | After the update, the node has exactly the rule's box and nothing else of it changed. |
| `CsgLive.RefreshedFreshSame` | src/csg-tree.ts:183-215 | In a tree whose boxes are all up to date, `updateNodeAABB` changes nothing. |
| `CsgLive.InsertStale` | src/csg-tree.ts:137-144 | After `createNode` under a parent, the new node is the parent's last child, and only its path may be stale. |
| `CsgLive.RemoveStale` | src/csg-tree.ts:175-182 | After `tree.delete` of a subtree, only the former parent's path may be stale. |
| `CsgLive.RemoveIds` | src/csg-tree.ts:175-182 | Deleting a subtree removes exactly that subtree's ids and keeps the ids distinct. |
| `CsgLive.SetDataFacts` | src/csg-tree.ts:229-237 | Writing keys into a node's data keeps ids and paths and puts the new data at the node. In an up-to-date tree, only the node's path may be stale. |
| `CsgDocument.CsgTree.constructor` | src/csg-tree.ts:115-123 | The document starts as a root union named "root" with smoothing 0, whose box is set, and the change flag is raised. |
| `CsgDocument.CsgTree.UpdateNodeAabb` | src/csg-tree.ts:183-215 | The new tree is `Refreshed`: the node gets its sphere box, or the hull of its children's boxes dilated by `smoothing * 4`, then its parent is updated up to the root, where `hasChanges` is set. |
| `CsgDocument.CsgTree.AddOperationNode` | src/csg-tree.ts:125-145 | The new operation becomes the last child of the given parent, or of the root. It has box `expandByScalar(create(), smoothing * 4)`, the ancestors are refreshed, and the ids grow by the new id. |
| `CsgDocument.CsgTree.AddLeafNode` | src/csg-tree.ts:147-174 | The new leaf becomes the parent's last child, with its sphere box, its ancestors are refreshed, and the ids grow by the new id. |
| `CsgDocument.CsgTree.RemoveNode` | src/csg-tree.ts:175-182 | The subtree is deleted, the former parent's chain is refreshed, the ids lose exactly that subtree's ids, and every box stays up to date. |
| `CsgDocument.CsgTree.UpdateLeafNodePropertiesAsWritten` | src/csg-tree.ts:216-227 | As written, the document does not change: `Object.assign` targets the node handle, and the box update that follows changes nothing. |
| `CsgDocument.CsgTree.UpdateLeafNodeProperties` | src/csg-tree.ts:216-227 | As intended: on a leaf, the given keys are written into its data and its chain is refreshed. Anything other than a leaf is left alone. |
| `CsgDocument.CsgTree.UpdateOperationNodeProperties` | src/csg-tree.ts:229-237 | The given keys are written into the node's data and its chain is refreshed. The ids are unchanged and the boxes are up to date. |
| `CsgNormalize.PairRoundUnpair` | src/csg-tree.ts:301-323 | One pairing round wraps `(c[i], c[i+1])` for each even `i` and carries an odd last child forward. Expanding the new intermediates gives back the children in order. |
| `CsgNormalize.BinarizeUnpair` | src/csg-tree.ts:297-324 | The pairing `while` loop preserves the left-to-right order of the children: expanded, its result is its input. |
| `CsgNormalize.BinarizeCount` | src/csg-tree.ts:297-324 | With n > 2 children the loop leaves two and uses exactly n − 2 ids. With n ≤ 2 it does nothing. |
| `CsgNormalize.BinarizePaired` | src/csg-tree.ts:302-311 | Every intermediate the loop makes carries the original's op and smoothing, the name `${name} (normalized)`, the zero box and two children. |
| `CsgNormalize.PairRoundIds` | src/csg-tree.ts:272-303 | The ids after a round are the ids it was given, plus `999@next` … for the pairs it made. |
| `CsgNormalize.BinarizeDistinct` | src/csg-tree.ts:297-324 | The loop makes no id twice and reuses no id it was given. |
| `CsgNormalize.NormalizeBinary` | src/csg-tree.ts:273-331 | After normalisation, no node has more than two children. |
| `CsgNormalize.NormalizeCount` | src/csg-tree.ts:271-331 | The id counter advances by exactly the sum of n − 2 over the operations with n > 2 children. |
| `CsgNormalize.NormalizeIds` | src/csg-tree.ts:271-331 | The normalised tree's ids are source ids or counter ids it used, and every counter id it used is in the tree. |
| `CsgNormalize.NormalizeDistinct` | src/csg-tree.ts:271-331 | Normalising a tree with distinct ids, none of which reads as one of the counter ids it uses, gives distinct ids. |
| `CsgNormalize.NormalizeNode` | src/csg-tree.ts:290-327 | At an operation with n children: with n ≤ 2 the normalised children are kept; with n > 2 exactly n − 2 intermediates are made, all of this node, and expanding them gives back the normalised children in order. |
| `CsgNormalize.NormalizeBare` | src/csg-tree.ts:289-292 | Normalised leaves carry no children. |
| `CsgBuild.BuildNormalizedTree` | src/csg-tree.ts:273-331 | `buildNormalizedTree` stores the normalised tree in the map, each node under its id with its parent and child ids. It changes no other key, and the counter ends where `Normalize` says. |
| `CsgBuild.BuildChildren` | src/csg-tree.ts:293-295 | The children are built in order under the node. Their ids are the listed ids and each is held with the node as parent. |
| `CsgBuild.BinarizeChildren` | src/csg-tree.ts:297-325 | The `while` loop leaves the ids of `Binarize`'s result as the children. Every child is held under the node, and only the counter ids used are new keys. |
| `CsgBuild.BuildLevel` | src/csg-tree.ts:300-323 | One pass of the `for` loop writes one intermediate per pair, rewrites both children's `parent` to it, carries an odd child forward, and yields `PairRound`'s ids. |
| `CsgBuild.AddIntermediate` | src/csg-tree.ts:302-317 | One intermediate is stored under `999@next`. Both of its children name it as parent, and the earlier pairs are kept. |
| `CsgBounds.MaxSmoothingIsMax` | src/csg-tree.ts:347-355 | `getMaxSmoothing` is the largest of what the nodes contribute: 0 for a leaf, its smoothing for an operation. |
| `CsgRecalcPass.GetMaxSmoothing` | src/csg-tree.ts:347-355 | The recursive `Math.max` walk over the map computes `MaxSmoothing` of the tree the map holds. |
| `CsgRecalcPass.BuildPostOrder` | src/csg-tree.ts:335-344 | `buildPostOrder` appends the post-order of the tree: the children's post-orders in turn, then the node. |
| `CsgBounds.PostOrderFacts` | src/csg-tree.ts:335-344 | The post-order puts every child before its parent, ends with the root, holds only the tree's ids, and has no repeats in a distinct tree. |
| `CsgBounds.RecalcNested` | src/csg-tree.ts:357-374 | With a margin of at least 0, every recalculated operation box contains the origin and each child's box. |
| `CsgRecalcPass.OperationBox` | src/csg-tree.ts:365-372 | An operation's new box is `create()` expanded by each child's new box, then by `getMaxSmoothing(root) * 4`. |
| `CsgRecalcPass.RecalculateAabbs` | src/csg-tree.ts:333-375 | After the pass the map holds `Recalc` of the normalised tree: leaves get sphere boxes and operations get hulls dilated by 4 × the tree's largest smoothing. Keys and other entries are unchanged. |
| `CsgDocument.NormalizedTreeFacts` | src/csg-tree.ts:265-380 | The normalised tree has distinct ids, no node with more than two children and no leaf with children. It keeps every source id reachable through operations, holds all of `999@0` … `999@(e−1)`, and every id it holds is a source id or one of those. The children of a source leaf are dropped. |
| `CsgNormalize.NormalizeKeeps` | src/csg-tree.ts:276-327 | Normalisation loses no node it reaches: every source id reachable through operations is an id of the normalised tree. |
| `CsgNormalize.BinarizeKeeps` | src/csg-tree.ts:297-324 | The pairing loop keeps every node below the children it is given: each pair is wrapped, never dropped. |
| `CsgDocument.CsgTree.GetNormalizedTree` | src/csg-tree.ts:265-380 | The map holds exactly the normalised tree with its boxes recalculated, rooted at the Loro root's id. The Loro tree is not touched. |
| `CsgFlattenPass.Dfs` | src/csg-tree.ts:395-407 | `dfs` appends the pre-order walk and records each node's position. |
| `CsgFlattenPass.FlatPosition` | src/csg-tree.ts:413-442 | From a completed walk, `child1` is the first child's position (right after the node), `child2` is the second child's position (right after the first child's walk), `parentIndex` is the listing operation's earlier position or -1 at the root, and `flattenedIndex` is the position. |
| `CsgFlattenPass.FlattenNodes` | src/csg-tree.ts:392-445 | One flattened node per node of the walk, in pre-order, each placed as `FlatPosition` says. |
| `CsgDocument.PreOrderCovers` | src/csg-tree.ts:395-409 | The walk meets every node of a normalised tree. |
| `CsgDocument.CsgTree.FlattenTree` | src/csg-tree.ts:382-454 | The normalised tree listed in pre-order, with every node present and every link placed. |
| `CsgSerialize.RecordFields` | src/csg-tree.ts:456-509 | A 32-slot record with [0] kind, [1..2] op and smoothing or scale and 0, the box at [4..6] and [8..10], [12..15] = child1, child2, parentIndex and flattenedIndex, and the identity matrix at [16..31] for operations or the transform for leaves. |
| `CsgSerialize.SerializeFlattenedNode` | src/csg-tree.ts:456-509 | Returns a fresh 32-slot array holding exactly that record. |
| `CsgDocument.SerializeFlat` | src/csg-tree.ts:516-536 | The records are laid end to end with `buffer.set(record, index * 32)`. An empty list gives an empty buffer. |
| `CsgDocument.RecordAt` | src/csg-tree.ts:521-533 | The buffer has 32·n slots and node `i`'s record occupies `[32i, 32i+32)`. |
| `CsgDocument.CsgTree.SerializeTreeForWebGpu` | src/csg-tree.ts:516-536 | A fresh buffer made of the records of the flattened normalised tree, in order, 32 slots each. |

## Left out

- Loro CRDT internals (`LoroDoc`, `createNode`, `tree.delete`, `data.set`) are a foreign library. The document is an immutable ordered tree value that the class replaces, Loro's node ids are parameters, and a node handle is its path from the root. The `hasChanges` signal is a boolean field.
- `CsgDocument.CsgTree.AddOperationNode` takes the given parent or else the root. The source's last fallback, the bare Loro tree (`?? this.tree`), applies only while the constructor builds the root, and the constructor models that case directly.
- `CsgDocument.CsgTree.RemoveNode`: removing the root itself is not modelled. The model has one root tree and removes a child at a position.
- `CsgDocument.CsgTree.UpdateOperationNodeProperties`: on a leaf, only `name` is a modelled key. The `op` and `smoothing` keys there would be stored but never read.
- `console.*` logging, and the throws that recheck child lookups (`child not found`) and the record length. The invariant makes these unreachable.
- Float32 rounding and IEEE-754 encoding are left out: numbers are `real` and buffers are arrays of `real`.
- The 16-float array that the blob `serializeFlattenedNode` fills first and then discards: only the 32-float record it returns is modelled.
- `getNode`, `getRoot`, and the `traverse` of the Loro revision: these are lookups and a callback walk with no state of their own. The blob `traverse` is modelled, with the callback's calls as its result.
- `generateRandomBlobTree` in both files: it is driven by `Math.random`.
- JavaScript truthiness: a stored id is never the empty string, so `if (parentId)` is modelled as "present". An empty `parentId` or `startNodeId` is treated as `undefined`.
- `BlobTree.SceneGraph.UpdateLeafNodeProperties`: the keys are modelled as present or absent. A key given explicitly as `undefined` is not modelled, and neither is an extra key smuggled in through `Object.assign`.
- `BlobTree.SceneGraph.AddChild`: as the model states it, `addChild` is only called the way the class calls it, on a node that was just put in, with no links and not the root.
- `BlobTree.SceneGraph.UpdateNodeAabb`: the `throw` for a missing child cannot fire in a linked store and is not modelled.
- `BlobTree.SceneGraph.SerializeTreeForWebGpu` and `CsgDocument.CsgTree.SerializeTreeForWebGpu` return the flattened list as a ghost alongside the buffer, so their contracts can say which list the records come from.
- `CsgDocument.CsgTree.GetNormalizedTree`, `FlattenTree` and `SerializeTreeForWebGpu` require that no Loro id reads as `999@n` for a counter value `n` that normalisation uses. The source makes no such check, and a collision would overwrite a node of the map.

## Findings

| source | as written | input that shows it | evidently intended | confidence | as-written member | corrected member |
|---|---|---|---|---|---|---|
| src/blob-tree.ts:107-129 | `addOperationNode(params, parentId)` passes its parent id to `addChild` unchecked. When `parentId` equals the id `generateId` just returned, the new operation is found as its own parent, lists itself and names itself as parent, and `updateNodeAABB` then recurses on it without end. | On an empty graph, `addOperationNode({op: 0, smoothing: 0}, "node-0")`. | A node is never its own parent. Such a parent id is treated like a missing parent, and the new node is dropped. | not executed | `BlobEdit.AsWrittenSelfParent` | `BlobTree.SceneGraph.AddChild` |
| src/csg-tree.ts:216-227 | `updateLeafNodeProperties` calls `Object.assign(leafNode, newProps)`, which writes onto the Loro node handle rather than its `data` map. The transform and scale stay as they were, and the box update changes nothing. | Any leaf, with `newProps = {scale: 2}`: `leafNode.data.get("scale")` keeps the old radius. | The keys are written into the node's data with `data.set`, as `updateOperationNodeProperties` does, and the box chain is then refreshed. | not executed | `CsgDocument.CsgTree.UpdateLeafNodePropertiesAsWritten` | `CsgDocument.CsgTree.UpdateLeafNodeProperties` |
