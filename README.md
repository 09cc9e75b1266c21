# Skinned mesh animation core

This project models the skeletal-animation core of YAGF in Dafny:

- the `irr::scene::ISkinnedMesh` class (`include/Core/ISkinnedMesh.h`);
- the algebraic part of `irr::core::quaternion` (`include/Maths/quaternion.h`).

A loader builds a skinned mesh:

1. It adds mesh buffers, joints (each optionally under a parent), vertex weights and position, scale and rotation keys.
2. It calls `finalize`. This derives the root joints, points every joint's animation source at itself and decides whether the mesh is animated. It also measures the animation length, sets the first frame of every key track to 0 and ends the track at `AnimationFrames`, computes the bind-pose matrices, and gives each weighted joint a skinning index in depth-first order. Finally it packs, per vertex, the four strongest (index, weight) pairs into `WeightBuffers`.

Every frame the renderer does two things:

- It calls `animateMesh(frame, blend)`. This samples each joint's key tracks through a cached "hint" search, blends the result into the joint's pose and rebuilds the local animated matrices.
- It calls `skinMesh`. This propagates the animated matrices down the joint forest and emits one `GlobalAnimated * GlobalInversed` matrix per weighted joint, in the same depth-first order as the skinning indices.

Both entry points are guarded by staleness flags (`LastAnimatedFrame` and `SkinnedLastFrame`).

## Layout

| file | module | contents |
|---|---|---|
| `vector3d.dfy` | `Vector3d` | `vector3df` over reals |
| `matrix4.dfy` | `Matrix4` | a 4x4 matrix as 16 reals, plus an `Algebra` record holding product, inverse and identity test |
| `quaternion.dfy` | `Quaternions` | the `Quat` value, its pure operators and their lemmas, and the `Quaternion` class for the members that assign to `*this` |
| `keyframes.dfy` | `Keyframes` | keys and tracks, the hint search, interpolation, the boundary fill |
| `skeleton.dfy` | `Skeleton` | the joint arena, the forest predicates, bind and animated globals, the depth-first walk, the skinning matrices, the list and source bookkeeping of `finalize` |
| `weight_table.dfy` | `WeightTable` | the totals of `normalizeWeights`, the influence table `Weights`, the strength sort, the top-4 packing |
| `skinned_mesh.dfy` | `SkinnedMeshes` | the `SkinnedMesh` class (`ISkinnedMesh`) and the loops its methods run |

The joints are stored in an arena:

- `joints` is a sequence of `Joint` values, indexed by creation order. `AllJoints` and `RootJoints` are sequences of arena indices.
- `addJoint` appends, so a child always comes after its parent. That ordering is what keeps the forest acyclic and the recursive walks terminating.
- A ghost `parents` sequence records each joint's parent for the proofs.

Matrix operations (`operator*`, `makeInverse`, `isIdentity`, `setbyproduct`) come from `Maths/matrix4.h`, which is not part of this model. They are an `Algebra` parameter. The trigonometric weights of `quaternion::slerp`'s spherical branch are a `SlerpWeights` function parameter.

Where the code does not do what its comments and names announce, the model follows the code:

- `normalizeWeights` (include/Core/ISkinnedMesh.h:584-622, the copies at :601 and :615) and the invalid-id check (:685-700) iterate over copies of the weights. The stored strengths are therefore never divided and invalid ids are never reset. The model computes only the totals, and requires weight ids to be in range.
- A vertex that no joint influences is divided by a zero kept sum in the packing (include/Core/ISkinnedMesh.h:1219), which gives NaN rather than a zero weight. The model makes that case an explicit `NonFinite` value.
- The key "optimise" loops of `finalize` (include/Core/ISkinnedMesh.h:1038-1108) have their erasures commented out, so they never terminate on a track that needs a change. Frames are therefore not made increasing. The model instead requires tracks that the loops leave alone (see "Left out").

## Model

| member | source | states |
|---|---|---|
| `Quaternions.IdentityIsUnit` | include/Maths/quaternion.h:283-293 | (0,0,0,1) is a left and a right unit of the quaternion product |
| `Quaternions.MulNotCommutative` | include/Maths/quaternion.h:314-317 | the product is not commutative (i·j differs from j·i), so the operand order of `*=` matters |
| `Quaternions.InverseInvolutive` | include/Maths/quaternion.h:425-429 | `makeInverse` negates X, Y, Z, keeps W, and applying it twice gives back the original |
| `Quaternions.LerpEndPoints` | include/Maths/quaternion.h:510-514 | `lerp` at time 0 gives q1 and at time 1 gives q2 |
| `Quaternions.DotSymmetric` | include/Maths/quaternion.h:543-546 | the dot product is symmetric |
| `Quaternions.EqualIsComponentwise` | include/Maths/quaternion.h:199-211 | `==` holds exactly when the quaternions are equal, and `!=` is its negation |
| `Quaternions.DotOfNegated` | include/Maths/quaternion.h:520-527 | negating q1 negates its dot product with q2 |
| `Quaternions.SlerpTakesShortArc` | include/Maths/quaternion.h:518-539 | after the sign flip the dot product is non-negative; above 1 - threshold `slerp` is `lerp` from the flipped q1, otherwise the weighted sum from the flipped q1 |
| `Quaternions.TransposedMatrixCorner` | include/Maths/quaternion.h:398-421 | `getMatrix_transposed` writes 0 in m[3], m[7], m[11] and m[12..14], and 1 in m[15] |
| `Quaternions.TransposedMatrixShape` | include/Maths/quaternion.h:398-421 | the 3x3 block of `getMatrix_transposed` is the transpose of `getMatrix`'s |
| `Quaternions.Quaternion.constructor` | include/Maths/quaternion.h:30 | the default quaternion is the identity (0,0,0,1) |
| `Quaternions.Quaternion.FromComponents` | include/Maths/quaternion.h:33 | the four-float constructor stores the given components |
| `Quaternions.Quaternion.Set` | include/Maths/quaternion.h:433-440 | `set(x,y,z,w)` stores the given components |
| `Quaternions.Quaternion.MakeIdentity` | include/Maths/quaternion.h:636-643 | `makeIdentity` leaves the identity |
| `Quaternions.Quaternion.MakeInverse` | include/Maths/quaternion.h:425-429 | `makeInverse` leaves the inverse of the previous value |
| `Quaternions.Quaternion.ScaleAssign` | include/Maths/quaternion.h:304-311 | `*= s` scales all four components by s |
| `Quaternions.Quaternion.MulAssign` | include/Maths/quaternion.h:314-317 | `*= other` stores `other * previous`, a pre-multiplication |
| `Quaternions.Quaternion.Lerp` | include/Maths/quaternion.h:510-514 | `lerp` stores `q1*(1-time) + q2*time` |
| `Quaternions.Quaternion.Slerp` | include/Maths/quaternion.h:518-539 | `slerp` stores the short-arc interpolation, whose branches `SlerpTakesShortArc` states |
| `Quaternions.Quaternion.GetMatrix` | include/Maths/quaternion.h:336-360 | `getMatrix` fills the 16 elements of the rotation matrix with `center` as its translation |
| `Quaternions.Quaternion.GetMatrixTransposed` | include/Maths/quaternion.h:398-421 | `getMatrix_transposed` fills the 16 elements whose shape `TransposedMatrixCorner` and `TransposedMatrixShape` state |
| `Keyframes.FirstAtLeast` | include/Core/ISkinnedMesh.h:424-435 | the full scan returns the first key whose frame is at least the query, or -1 when every key is earlier |
| `Keyframes.FoundIndex` | include/Core/ISkinnedMesh.h:401-436 | a found index i > 0 brackets the query (`keys[i-1].frame < frame <= keys[i].frame`); index 0 means the query is at or before the first key; -1 happens exactly when every key is earlier |
| `Keyframes.FindKey` | include/Core/ISkinnedMesh.h:401-436 | the hint check, the next-key check and the scan return `FoundIndex`, and the hint moves to the found index or stays put |
| `Keyframes.HintIsPureOptimisation` | include/Core/ISkinnedMesh.h:406-421 | on a track sorted by frame, the index found is the full scan's whatever the hint |
| `Keyframes.FrameDataIgnoresHints` | include/Core/ISkinnedMesh.h:386-582 | on sorted tracks the sampled position, scale and rotation do not depend on the hints |
| `Keyframes.DivisorNegative` | include/Core/ISkinnedMesh.h:450-452 | at a found index above 0, `fd1 + fd2` is strictly negative, so the interpolation never divides by zero |
| `Keyframes.InterpolateVecAtKeys` | include/Core/ISkinnedMesh.h:447-452 | the interpolation gives each bracketing key's own value at that key's frame |
| `Keyframes.RotationTimeInRange` | include/Core/ISkinnedMesh.h:564-569 | inside a bracket the rotation time lies in [0, 1), and it is 0 exactly at the found key's frame |
| `Keyframes.NoKeyKeepsValue` | include/Core/ISkinnedMesh.h:386-582 | for each of the position, scale and rotation tracks: when every key of the track is before the query, the caller's value and that track's hint are left as they were |
| `Keyframes.LookupAtKeyFrame` | include/Core/ISkinnedMesh.h:401-453 | on a strictly increasing position or scale track, a query at a key's frame returns that key's value, whatever the hint |
| `Keyframes.RotationAtKeyFrame` | include/Core/ISkinnedMesh.h:517-577 | on a strictly increasing rotation track, a query at the first key's frame returns that key; at a later key's frame it returns `slerp` from that key to its predecessor at time 0, which in slerp's linear branch is the key itself, negated when its dot product with the predecessor is negative |
| `Keyframes.InterpolateVecMidpoint` | include/Core/ISkinnedMesh.h:447-452 | halfway between two keys the position is the average of their values |
| `Keyframes.FillTrackShape` | include/Core/ISkinnedMesh.h:1110-1129 | the fill sets the first frame to 0 and ends the track at `AnimationFrames`; it inserts nothing in front, appends at most one copy of the last value, and changes no value and no interior frame; an empty track stays empty |
| `Keyframes.FillTrackKeepsOrder` | include/Core/ISkinnedMesh.h:1110-1129 | on a strictly increasing track within [0, frames], the filled track is still strictly increasing and spans [0, frames] |
| `Skeleton.BindAllMeaning` | include/Core/ISkinnedMesh.h:723-735 | a joint reached from the roots gets global = local (root) or parent global * local; its animated matrices are reset to the bind ones; its inverse is computed only when the stored one is the identity; joints not reached are untouched |
| `Skeleton.AnimateAllMeaning` | include/Core/ISkinnedMesh.h:817-820 | a reached joint's animated global is its animated local for a root or a global-skinning-space joint, otherwise parent animated global * animated local; nothing else changes |
| `Skeleton.BindKeepsShape` | include/Core/ISkinnedMesh.h:710-740 | the bind pass changes no children lists and no weights |
| `Skeleton.Walk` | include/Core/ISkinnedMesh.h:828-842 | the depth-first walk from a joint lists only weighted joints at or after it in the arena |
| `Skeleton.WalkMembers` | include/Core/ISkinnedMesh.h:828-842 | the walk from j lists exactly the weighted descendants of j (j included) |
| `Skeleton.WalkDistinct` | include/Core/ISkinnedMesh.h:828-842 | the walk lists no joint twice |
| `Skeleton.WalkRootsDependsOnShape` | include/Core/ISkinnedMesh.h:944-962 | the walk order depends only on children and on which joints have weights, so it is the same at `finalize` and at `skinMesh` |
| `Skeleton.SkinMatrices` | include/Core/ISkinnedMesh.h:834-836 | one skinning matrix per listed joint |
| `Skeleton.SkinMatricesMeaning` | include/Core/ISkinnedMesh.h:834-836 | the k-th skinning matrix is the k-th listed joint's `GlobalAnimated * GlobalInversed` |
| `Skeleton.SkinWalkSplit` | include/Core/ISkinnedMesh.h:830-841 | a joint's own matrix (when it has weights) comes before all of its children's |
| `Skeleton.SkinChildStep` | include/Core/ISkinnedMesh.h:840-841 | each child's subtree of matrices follows the previous children's in order |
| `Skeleton.SkinRootStep` | include/Core/ISkinnedMesh.h:961-962 | each root's subtree of matrices follows the previous roots' in order |
| `Skeleton.TranslatedShape` | include/Core/ISkinnedMesh.h:759-772 | the translation fold on a transposed rotation matrix writes the position into m[12..14] and leaves m[0..11] unchanged |
| `Skeleton.FoldShape` | include/Core/ISkinnedMesh.h:759-798 | on a matrix with an empty translation and last column 0 0 0 1, the translation and scale folds put the position into m[12..14], keep the last column, and scale each row of the rotation block by the matching scale component (or leave it when there are no scale keys) |
| `Skeleton.PoseMatrixShape` | include/Core/ISkinnedMesh.h:756-798 | the local animated matrix built from the transposed rotation has the animated position in m[12..14] and 0 0 0 1 in its last column |
| `Skeleton.BlendEnds` | include/Core/ISkinnedMesh.h:910-923 | blend 1 replaces the pose outright; blend 0 keeps the previous position and scale |
| `Skeleton.NoSourceKeepsPose` | include/Core/ISkinnedMesh.h:395-581 | a joint without an animation source keeps its pose and hints |
| `Skeleton.HasParentInMeaning` | include/Core/ISkinnedMesh.h:857-864 | over the whole arena, a joint is some joint's child exactly when it has a parent |
| `Skeleton.RootsAmong` | include/Core/ISkinnedMesh.h:1013-1018 | every collected root comes from `AllJoints` and is nobody's child |
| `Skeleton.RootsAmongArena` | include/Core/ISkinnedMesh.h:1013-1018 | over a prefix of the arena, the roots collected are exactly the parentless joints, each once |
| `Skeleton.RootsOfArena` | include/Core/ISkinnedMesh.h:1013-1018 | over the whole arena, a joint is collected as a root exactly when it has no parent, and no root is listed twice |
| `Skeleton.ListedKeepsWellformed` | include/Core/ISkinnedMesh.h:1010-1021 | the lists `finalize` derives keep the arena well formed, and derived roots are exactly the parentless joints |
| `Skeleton.SetSourcesKeeps` | include/Core/ISkinnedMesh.h:1023-1024 | pointing sources at themselves changes no links, no weights and no keys |
| `Skeleton.RaiseTo` | include/Core/ISkinnedMesh.h:663-673 | the running length never decreases, reaches a non-empty track's last frame, and is either the old value or that frame |
| `Skeleton.AnimationLengthIsMax` | include/Core/ISkinnedMesh.h:655-675 | the animation length is at least 0, at least every listed track's last frame, and either 0 or one of those frames |
| `Skeleton.FillAll` | include/Core/ISkinnedMesh.h:1110-1169 | the fill changes no children, sources or weights |
| `Skeleton.LocalBuilt` | include/Core/ISkinnedMesh.h:742-804 | building local animated matrices changes no children, sources or weights |
| `Skeleton.AnimateAllJoints` | include/Core/ISkinnedMesh.h:891-924 | posing changes no children, sources, weights or keys |
| `WeightTable.Quotient` | include/Core/ISkinnedMesh.h:1219 | a float division is finite exactly when the divisor is non-zero, and its value times the divisor gives back the dividend |
| `WeightTable.EmptyTables` | include/Core/ISkinnedMesh.h:1187-1192 | one table per mesh buffer, one empty list per vertex |
| `WeightTable.StrengthOnNonNegative` | include/Core/ISkinnedMesh.h:603-609 | only positive strengths are added, so no total is negative |
| `WeightTable.AddStrengthsMeaning` | include/Core/ISkinnedMesh.h:601-609 | a joint's pass adds its positive strengths on that vertex to the vertex's total |
| `WeightTable.TotalsMeaning` | include/Core/ISkinnedMesh.h:599-611 | each vertex total is the sum of the positive strengths that all listed joints put on it |
| `WeightTable.PushWeightsMeaning` | include/Core/ISkinnedMesh.h:848-849 | a joint's weights append (index, strength) to the lists of exactly the vertices they name |
| `WeightTable.AddInfluencesMeaning` | include/Core/ISkinnedMesh.h:844-855 | after the walk, each vertex list is its old list followed by the contributions of the walked joints, in walk order |
| `WeightTable.TargetingMeaning` | include/Core/ISkinnedMesh.h:848-849 | an entry lands on a vertex exactly when the joint has a weight with that buffer, vertex and strength |
| `WeightTable.ContributionsMeaning` | include/Core/ISkinnedMesh.h:844-855 | an (index, strength) pair is on a vertex exactly when the joint with that skinning index has a weight on that vertex with that strength |
| `WeightTable.InfluenceWalkSplit` | include/Core/ISkinnedMesh.h:846-854 | a joint's own weights take the current index, and its children continue from the next one |
| `WeightTable.SortByStrength` | include/Core/ISkinnedMesh.h:1204 | the sort orders by non-increasing strength and is a permutation |
| `WeightTable.InsertPermutes` | include/Core/ISkinnedMesh.h:1204 | each insertion step of the sort keeps every element |
| `WeightTable.InsertSorted` | include/Core/ISkinnedMesh.h:1204 | each insertion step of the sort keeps the order |
| `WeightTable.PackedKeepsStrongest` | include/Core/ISkinnedMesh.h:1204-1216 | of a sorted list, the first min(4, n) indices are kept in order, the other slots get index -1, and no dropped contribution is stronger than a kept one |
| `WeightTable.PackedWeightsSumToOne` | include/Core/ISkinnedMesh.h:1205-1221 | with a non-zero kept sum the four weights are finite and add up to 1; with a zero kept sum all four are NaN/infinite |
| `WeightTable.PackBuffer` | include/Core/ISkinnedMesh.h:1199-1223 | each buffer's output has exactly 4 entries per vertex |
| `WeightTable.PackBufferLayout` | include/Core/ISkinnedMesh.h:1217-1220 | entry 4v + k of a buffer's output is slot k of vertex v |
| `WeightTable.PackTable` | include/Core/ISkinnedMesh.h:1199-1224 | one packed buffer per influence table |
| `WeightTable.PackedSlotNamesWeight` | include/Core/ISkinnedMesh.h:1194-1224 | a slot is -1 exactly when the vertex has at most that many contributions; otherwise its index is a skinning index in range whose joint has a weight on that vertex |
| `SkinnedMeshes.SkinnedMesh.constructor` | include/Core/ISkinnedMesh.h:970-980 | a new mesh is empty, has length 0 and no animation, is not prepared for skinning, and has last animated frame -1 |
| `SkinnedMeshes.SkinnedMesh.AddMeshBuffer` | include/Core/ISkinnedMesh.h:1228-1232 | appends one buffer with the given vertex count and returns its number; nothing else changes |
| `SkinnedMeshes.SkinnedMesh.AddJoint` | include/Core/ISkinnedMesh.h:1235-1241 | appends a fresh joint carrying the loader's name, local matrix, animated pose and inverse matrix to the arena and to `AllJoints`, adds it to the parent's children when there is one, and keeps the forest well formed |
| `SkinnedMeshes.SkinnedMesh.AddWeight` | include/Core/ISkinnedMesh.h:1244-1248 | appends the weight to that joint only |
| `SkinnedMeshes.SkinnedMesh.AddPositionKey` | include/Core/ISkinnedMesh.h:1251-1255 | appends the key to that joint's position track only |
| `SkinnedMeshes.SkinnedMesh.AddScaleKey` | include/Core/ISkinnedMesh.h:1257-1261 | appends the key to that joint's scale track only |
| `SkinnedMeshes.SkinnedMesh.AddRotationKey` | include/Core/ISkinnedMesh.h:1263-1267 | appends the key to that joint's rotation track only |
| `SkinnedMeshes.SkinnedMesh.HasParent` | include/Core/ISkinnedMesh.h:857-864 | true exactly when a joint of `AllJoints` lists the joint as a child; over the whole arena, exactly when it has a parent |
| `SkinnedMeshes.SkinnedMesh.GetFrameData` | include/Core/ISkinnedMesh.h:386-582 | the sampled pose and new hints are the joint's source tracks looked up at the frame |
| `SkinnedMeshes.SkinnedMesh.NormalizeWeights` | include/Core/ISkinnedMesh.h:584-622 | computes, per vertex, the sum of positive strengths over `AllJoints`, and changes nothing |
| `SkinnedMeshes.SkinnedMesh.CheckForAnimation` | include/Core/ISkinnedMesh.h:625-708 | the mesh is animated exactly when a listed joint's source has keys or a listed joint has weights; the length is then the largest last key frame; an animated mesh becomes prepared for skinning; the skinned flag is cleared and nothing else changes |
| `SkinnedMeshes.SkinnedMesh.CalculateGlobalMatrices` | include/Core/ISkinnedMesh.h:710-740 | the joints become their bind pose from the roots down, and the skinned flag is cleared when there are roots |
| `SkinnedMeshes.SkinnedMesh.BuildAllLocalAnimatedMatrices` | include/Core/ISkinnedMesh.h:742-804 | every listed joint whose source has keys gets its local animated matrix from its pose, the others their local matrix; links and weights stay; the skinned flag is cleared |
| `SkinnedMeshes.SkinnedMesh.BuildAllGlobalAnimatedMatrices` | include/Core/ISkinnedMesh.h:806-825 | the animated globals are propagated from the roots down |
| `SkinnedMeshes.SkinnedMesh.AnimateMesh` | include/Core/ISkinnedMesh.h:880-934 | without animation, or at the last animated frame, nothing changes (so a repeated call is a no-op); otherwise the frame is recorded and the skinned flag cleared; with blend <= 0 the joints stay, else they are posed and their local matrices rebuilt; the shape of the forest never changes |
| `SkinnedMeshes.SkinnedMesh.PoseJoints` | include/Core/ISkinnedMesh.h:891-924 | each listed joint's pose is the sampled one at blend 1 and the blend of old and sampled otherwise |
| `SkinnedMeshes.SkinnedMesh.SkinMesh` | include/Core/ISkinnedMesh.h:937-963 | while unanimated or already skinned nothing changes; otherwise the animated globals are propagated, the flag is set, and the matrix list is rebuilt from empty with one matrix per weighted joint in walk order |
| `SkinnedMeshes.SkinnedMesh.DeriveJointLists` | include/Core/ISkinnedMesh.h:1010-1021 | without roots, the roots become the parentless joints of `AllJoints`; with roots, `AllJoints` becomes the root list |
| `SkinnedMeshes.SkinnedMesh.FindRoots` | include/Core/ISkinnedMesh.h:1013-1018 | collects, in order, the joints of `AllJoints` that have no parent |
| `SkinnedMeshes.SkinnedMesh.SetAnimationSources` | include/Core/ISkinnedMesh.h:1023-1024 | every listed joint becomes its own animation source |
| `SkinnedMeshes.SkinnedMesh.FillKeys` | include/Core/ISkinnedMesh.h:1029-1171 | when animated, every listed joint's tracks are filled to [0, `AnimationFrames`]; otherwise nothing changes |
| `SkinnedMeshes.SkinnedMesh.OrganiseWeights` | include/Core/ISkinnedMesh.h:1186-1196 | appends one empty table per buffer and adds every walked joint's weights under its skinning index |
| `SkinnedMeshes.SkinnedMesh.PackWeights` | include/Core/ISkinnedMesh.h:1198-1224 | sorts every vertex list by strength and appends the packed buffers to `WeightBuffers` |
| `SkinnedMeshes.SkinnedMesh.PrepareAnimation` | include/Core/ISkinnedMesh.h:1006-1027 | resets the flags, derives the lists, sets the sources and decides whether the mesh is animated; when it is, the animation length becomes the largest last-key frame of the sources and the mesh is marked prepared for skinning |
| `SkinnedMeshes.SkinnedMesh.PrepareJoints` | include/Core/ISkinnedMesh.h:1004-1174 | the joints end as the bind pose of the sourced (and, when animated, filled) joints; the tracks are filled up to the largest last-key frame of the sourced joints, which becomes the animation length; an animated mesh is marked prepared for skinning; the forest's shape is unchanged |
| `SkinnedMeshes.SkinnedMesh.Finalize` | include/Core/ISkinnedMesh.h:1004-1225 | the whole `finalize`: lists, sources, animation flag, the animation length as the largest last-key frame of the sourced joints, the prepared-for-skinning flag, filled and bound joints, the sorted influence table and the appended packed weights |
| `SkinnedMeshes.AppendEmptyTables` | include/Core/ISkinnedMesh.h:1187-1192 | appends one table per buffer, sized by its vertex count, to the existing tables |
| `SkinnedMeshes.SkinRoots` | include/Core/ISkinnedMesh.h:961-962 | the matrices emitted from the roots are the skinning matrices of the whole walk |
| `SkinnedMeshes.SourceJoints` | include/Core/ISkinnedMesh.h:1023-1024 | the loop points each listed joint at itself |
| `SkinnedMeshes.FillJoints` | include/Core/ISkinnedMesh.h:1110-1169 | the loop fills each listed joint's three tracks |
| `SkinnedMeshes.ComputeRootInfluences` | include/Core/ISkinnedMesh.h:1194-1196 | the walk from the roots fills the table with the contributions in walk order, and the final index equals the number of skinning matrices |
| `SkinnedMeshes.PackTableWeights` | include/Core/ISkinnedMesh.h:1199-1224 | the loop sorts every buffer and packs it |
| `SkinnedMeshes.AddWeightStrengths` | include/Core/ISkinnedMesh.h:601-610 | the loop adds one joint's positive strengths into the totals |
| `SkinnedMeshes.FindAnimation` | include/Core/ISkinnedMesh.h:627-653 | the two early-exit loops decide the animation flag |
| `SkinnedMeshes.MeasureAnimation` | include/Core/ISkinnedMesh.h:655-675 | the loop computes the animation length |
| `SkinnedMeshes.BindPass` | include/Core/ISkinnedMesh.h:723-738 | the recursive pass sets the bind matrices of a subtree |
| `SkinnedMeshes.AnimatePass` | include/Core/ISkinnedMesh.h:816-824 | the recursive pass sets the animated globals of a subtree |
| `SkinnedMeshes.SkinJoint` | include/Core/ISkinnedMesh.h:828-842 | appends the skinning matrices of the subtree's walk to those already emitted |
| `SkinnedMeshes.PushJointWeights` | include/Core/ISkinnedMesh.h:848-849 | the loop pushes one joint's weights |
| `SkinnedMeshes.ComputeWeightInfluence` | include/Core/ISkinnedMesh.h:844-855 | the recursion adds the subtree's contributions from the given index and advances the index by the number of weighted joints in it |
| `SkinnedMeshes.PushOwnInfluence` | include/Core/ISkinnedMesh.h:846-851 | a weighted joint pushes its weights and takes one index |
| `SkinnedMeshes.ComputeChildInfluences` | include/Core/ISkinnedMesh.h:853-854 | the children are processed in order, continuing the index |
| `SkinnedMeshes.ComputeChildInfluence` | include/Core/ISkinnedMesh.h:853-854 | one more child's subtree is added |
| `SkinnedMeshes.PackVertex` | include/Core/ISkinnedMesh.h:1205-1221 | the slot loops compute the packed vertex |
| `SkinnedMeshes.PackBufferWeights` | include/Core/ISkinnedMesh.h:1201-1223 | the vertex loop sorts and packs one buffer |
| `SkinnedMeshes.AddJointKeepsForest` | include/Core/ISkinnedMesh.h:1235-1241 | appending a joint under an existing parent keeps the arena a forest |
| `SkinnedMeshes.SlotSelectsWeightingJoint` | include/Core/ISkinnedMesh.h:828-855 | a used packed slot indexes the matrix list `skinMesh` builds, and that matrix is `GlobalAnimated * GlobalInversed` of a joint with a weight on the slot's vertex |

## Left out

- Rendering, materials, the mesh-buffer contents other than the vertex count, `SkinningBuffers`, `FramesPerSecond`/`setAnimationSpeed`, `AnimateNormals`, `HardwareSkinning` and the destructor have no behaviour in this core.
- The rigid-animation loops over `AttachedMeshes` have empty bodies and are not modelled.
- The `strength` parameter of `skinMesh`/`skinJoint` and `skinJoint`'s parent parameter are never used, and are left out.
- The key "optimise" loops of `finalize` erase nothing. On a track with a non-increasing frame pair or three equal consecutive values, their `--j; ++j` on an unsigned counter never ends. `FillKeys`, `PrepareJoints` and `Finalize` therefore require every listed track to have strictly increasing frames and no such triple (`Keyframes.Settled`); on those tracks the loops change nothing.
- `normalizeWeights` and the invalid-id check work on copies of the weights. Only the totals are modelled, and weight ids are required to be in range (`OrderFits`).
- SkinnedMeshes.SkinnedMesh.NormalizeWeights: returns the totals instead of dropping them, since the source only builds them in a local.
- `std::sort` is not stable, so contributions of equal strength may come out in either order. The model uses a stable insertion sort, which is one of the orders the source can produce.
- The `(int)` cast of the `size_t` skinning index is not modelled; indices are unbounded naturals.
- Floats are modelled as reals: rounding, NaN propagation and infinities are not captured, except for the explicit `NonFinite` result of dividing by a zero kept sum.
- The acos/sin branch of `slerp` is a function parameter. Euler `set(x,y,z)`, `normalize`, the angle/axis conversions, `rotationFromTo`, matrix-to-quaternion assignment and vector rotation are not part of this model.
- `Maths/matrix4.h` is not part of this model: matrix product, inverse, `isIdentity` and `setbyproduct` are the `Algebra` parameter.
- The loader functions return pointers for the caller to fill in. The model takes the filled-in weight or key as an argument, and for a joint its name, local matrix, animated position, scale and rotation, and precomputed inverse matrix. The joint's `GlobalMatrix`, `GlobalAnimatedMatrix` and `LocalAnimatedMatrix` start at the identity, since `calculateGlobalMatrices` overwrites them for every joint reached from a root.
- WeightTable.PackedSlotNamesWeight: stated for buffer and vertex numbers below 65536 and for a vertex list that is empty before the walk, which is what `finalize`'s freshly appended tables give.
- SkinnedMeshes.SlotSelectsWeightingJoint: stated under the same bounds as `PackedSlotNamesWeight`.
- A second `finalize` appends a second set of tables and packed buffers, as the source does; the model follows it without claiming the result is meaningful.
- When `RootJoints` is already filled, `finalize` replaces `AllJoints` with it, so non-root joints drop out of `AllJoints`; the model follows the source.
- `include/Core/Singleton.h` and the graphics back ends are not part of this model.
