/**
  ISkinnedMesh: a mesh whose vertices follow a forest of joints. A loader adds mesh
  buffers, joints, weights and keys, then calls `Finalize`; every frame the renderer
  calls `AnimateMesh` and `SkinMesh`, which leave one skinning matrix per weighted joint
  in `jointMatrixes`. The packed `weightBuffers` hold, per vertex, four indices into
  that list and their weights.
 */
module SkinnedMeshes {
  import opened Matrix4
  import opened Keyframes
  import opened Skeleton
  import opened WeightTable
  import V = Vector3d
  import Q = Quaternions

  class SkinnedMesh {
    /** The joint arena: every SJoint the mesh owns, in creation order. */
    var joints: seq<Joint>
    /** AllJoints and RootJoints, as arena indices. */
    var allJoints: seq<nat>
    var roots: seq<nat>
    /** The parent of each joint (-1 for none), as the children lists record it. */
    ghost var parents: seq<int>
    /** The vertex count of each mesh buffer (LocalBuffers). */
    var bufferSizes: seq<nat>
    /** Weights: buffer -> vertex -> (skinning index, strength). */
    var influences: seq<seq<seq<Influence>>>
    var weightBuffers: seq<seq<WeightInfluence>>
    var jointMatrixes: seq<Matrix>
    var animationFrames: real
    var hasAnimation: bool
    var preparedForSkinning: bool
    var lastAnimatedFrame: real
    var skinnedLastFrame: bool
    /** The matrix4 operations and the trigonometric part of quaternion::slerp. */
    const algebra: Algebra
    const trig: Q.SlerpWeights

    ghost predicate Valid()
      reads this
    {
      Wellformed(joints, parents, allJoints, roots)
    }

    /** The joint lists, the parent record and the buffer sizes. */
    ghost function Layout(): (seq<nat>, seq<nat>, seq<int>, seq<nat>)
      reads this
    {
      (allJoints, roots, parents, bufferSizes)
    }

    /** The influence table, the packed weights and the skinning matrices. */
    ghost function Tables(): (seq<seq<seq<Influence>>>, seq<seq<WeightInfluence>>, seq<Matrix>)
      reads this
    {
      (influences, weightBuffers, jointMatrixes)
    }

    /** The animation length and every flag but SkinnedLastFrame. */
    ghost function Status(): (real, bool, bool, real)
      reads this
    {
      (animationFrames, hasAnimation, preparedForSkinning, lastAnimatedFrame)
    }

    constructor (algebra: Algebra, trig: Q.SlerpWeights)
      ensures Valid()
      ensures joints == [] && allJoints == [] && roots == [] && bufferSizes == []
      ensures influences == [] && weightBuffers == [] && jointMatrixes == []
      ensures animationFrames == 0.0 && lastAnimatedFrame == -1.0
      ensures !hasAnimation && !preparedForSkinning && !skinnedLastFrame
      ensures this.algebra == algebra && this.trig == trig
    {
      this.algebra := algebra;
      this.trig := trig;
      joints, allJoints, roots, parents := [], [], [], [];
      bufferSizes, influences, weightBuffers, jointMatrixes := [], [], [], [];
      animationFrames, lastAnimatedFrame := 0.0, -1.0;
      hasAnimation, preparedForSkinning, skinnedLastFrame := false, false, false;
    }

    // ------------------------------------------------------------ loader interface

    /** `addMeshBuffer`: a new buffer of `vertexCount` vertices, reached as buffer `b`. */
    method AddMeshBuffer(vertexCount: nat) returns (b: nat)
      modifies this
      ensures b == |old(bufferSizes)| && bufferSizes == old(bufferSizes) + [vertexCount]
      ensures joints == old(joints) && allJoints == old(allJoints) && roots == old(roots) && parents == old(parents)
      ensures Tables() == old(Tables()) && Status() == old(Status()) && skinnedLastFrame == old(skinnedLastFrame)
    {
      b := |bufferSizes|;
      bufferSizes := bufferSizes + [vertexCount];
    }

    /**
      `addJoint`: a new joint at the end of the arena and of AllJoints, listed last among
      the children of `parent` when there is one. The loader's writes through the returned
      pointer (name, local matrix, animated pose, precomputed inverse) are its arguments here.
     */
    method AddJoint(parent: Option<nat>, name: string, local: Matrix, pose: Pose, globalInversed: Matrix)
      returns (j: nat)
      requires Valid()
      requires parent.Some? ==> parent.value < |joints|
      modifies this
      ensures Valid()
      ensures j == |old(joints)|
      ensures joints == (match parent
                          case None => old(joints)
                          case Some(p) => old(joints)[p := old(joints)[p].(children := old(joints)[p].children + [j])])
                        + [NewJoint.(name := name, local := local, pose := pose, globalInversed := globalInversed)]
      ensures parents == old(parents) + [if parent.Some? then parent.value else -1]
      ensures allJoints == old(allJoints) + [j] && roots == old(roots) && bufferSizes == old(bufferSizes)
      ensures Tables() == old(Tables()) && Status() == old(Status()) && skinnedLastFrame == old(skinnedLastFrame)
    {
      j := |joints|;
      var js := joints;
      var ps := parents;
      if parent.Some? {
        var p := parent.value;
        js := js[p := js[p].(children := js[p].children + [j])];
      }
      js := js + [NewJoint.(name := name, local := local, pose := pose, globalInversed := globalInversed)];
      ps := ps + [if parent.Some? then parent.value else -1];
      AddJointKeepsForest(joints, parents, parent, js, ps);
      joints, parents := js, ps;
      allJoints := allJoints + [j];
    }

    /** `addWeight`: `w` appended to the weights of joint `j`. */
    method AddWeight(j: nat, w: Weight)
      requires Valid() && j < |joints|
      modifies this
      ensures Layout() == old(Layout()) && Tables() == old(Tables())
      ensures Valid()
      ensures joints == old(joints)[j := old(joints)[j].(weights := old(joints)[j].weights + [w])]
      ensures Status() == old(Status()) && skinnedLastFrame == old(skinnedLastFrame)
    {
      var js := joints[j := joints[j].(weights := joints[j].weights + [w])];
      WellformedKeptBy(joints, js, parents, allJoints, roots);
      joints := js;
    }

    /** `addPositionKey`: `key` appended to the position track of joint `j`. */
    method AddPositionKey(j: nat, key: Key<V.Vec3>)
      requires Valid() && j < |joints|
      modifies this
      ensures Layout() == old(Layout()) && Tables() == old(Tables())
      ensures Valid()
      ensures joints == old(joints)[j := old(joints)[j].(keys := old(joints)[j].keys.(
                          position := old(joints)[j].keys.position + [key]))]
      ensures Status() == old(Status()) && skinnedLastFrame == old(skinnedLastFrame)
    {
      var js := joints[j := joints[j].(keys := joints[j].keys.(position := joints[j].keys.position + [key]))];
      WellformedKeptBy(joints, js, parents, allJoints, roots);
      joints := js;
    }

    /** `addScaleKey`: `key` appended to the scale track of joint `j`. */
    method AddScaleKey(j: nat, key: Key<V.Vec3>)
      requires Valid() && j < |joints|
      modifies this
      ensures Layout() == old(Layout()) && Tables() == old(Tables())
      ensures Valid()
      ensures joints == old(joints)[j := old(joints)[j].(keys := old(joints)[j].keys.(
                          scale := old(joints)[j].keys.scale + [key]))]
      ensures Status() == old(Status()) && skinnedLastFrame == old(skinnedLastFrame)
    {
      var js := joints[j := joints[j].(keys := joints[j].keys.(scale := joints[j].keys.scale + [key]))];
      WellformedKeptBy(joints, js, parents, allJoints, roots);
      joints := js;
    }

    /** `addRotationKey`: `key` appended to the rotation track of joint `j`. */
    method AddRotationKey(j: nat, key: Key<Q.Quat>)
      requires Valid() && j < |joints|
      modifies this
      ensures Layout() == old(Layout()) && Tables() == old(Tables())
      ensures Valid()
      ensures joints == old(joints)[j := old(joints)[j].(keys := old(joints)[j].keys.(
                          rotation := old(joints)[j].keys.rotation + [key]))]
      ensures Status() == old(Status()) && skinnedLastFrame == old(skinnedLastFrame)
    {
      var js := joints[j := joints[j].(keys := joints[j].keys.(rotation := joints[j].keys.rotation + [key]))];
      WellformedKeptBy(joints, js, parents, allJoints, roots);
      joints := js;
    }

    // ------------------------------------------------------------ queries

    /**
      `hasParent`: whether some joint of AllJoints lists `j` as a child. Before roots are
      known AllJoints is the whole arena, and the answer is whether `j` has a parent.
     */
    method HasParent(j: nat) returns (r: bool)
      requires Valid()
      ensures r == HasParentIn(joints, allJoints, j)
      ensures roots == [] && j < |joints| ==> (r <==> parents[j] >= 0)
    {
      if roots == [] && j < |joints| {
        HasParentInMeaning(joints, parents, allJoints, j);
      }
      var k := 0;
      while k < |allJoints|
        invariant 0 <= k <= |allJoints|
        invariant forall k', i | 0 <= k' < k && 0 <= i < |joints[allJoints[k']].children| ::
                    joints[allJoints[k']].children[i] != j
      {
        var cs := joints[allJoints[k]].children;
        var i := 0;
        while i < |cs|
          invariant 0 <= i <= |cs|
          invariant forall i' | 0 <= i' < i :: cs[i'] != j
        {
          if cs[i] == j {
            return true;
          }
          i := i + 1;
        }
        k := k + 1;
      }
      return false;
    }

    /**
      `getFrameData`: the pose and hints the tracks of joint `j`'s animation source give
      at `frame`, starting from `pose` and `hints`; without a source both come back as
      they went in.
     */
    method GetFrameData(frame: real, j: nat, pose: Pose, hints: Hints) returns (pose': Pose, hints': Hints)
      requires Valid() && j < |joints|
      ensures (pose', hints') == JointFrameData(joints, j, frame, pose, hints, trig)
    {
      pose', hints' := pose, hints;
      if joints[j].animationSource.Some? {
        var t := joints[joints[j].animationSource.value].keys;
        var foundPosition, positionHint := FindKey(t.position, frame, hints.position);
        var foundScale, scaleHint := FindKey(t.scale, frame, hints.scale);
        var foundRotation, rotationHint := FindKey(t.rotation, frame, hints.rotation);
        pose' := Pose(SampleVec(t.position, foundPosition, frame, pose.position),
                      SampleVec(t.scale, foundScale, frame, pose.scale),
                      SampleRot(t.rotation, foundRotation, frame, pose.rotation, trig));
        hints' := Hints(positionHint, scaleHint, rotationHint);
      }
    }

    /**
      `normalizeWeights`: the total positive strength on every vertex of every buffer,
      summed over the weights of AllJoints. The division that follows acts on copies of
      the weights and leaves the mesh unchanged, so the totals are all it yields.
     */
    method NormalizeWeights() returns (totals: seq<seq<real>>)
      requires OrderFits(ZeroTotals(bufferSizes), joints, allJoints)
      ensures totals == Totals(ZeroTotals(bufferSizes), joints, allJoints)
    {
      var js, all, zero := joints, allJoints, ZeroTotals(bufferSizes);
      totals := zero;
      var k := 0;
      while k < |all|
        invariant 0 <= k <= |all|
        invariant totals == Totals(zero, js, all[..k])
      {
        FitsByLayout(zero, totals, js[all[k]].weights);
        totals := AddWeightStrengths(totals, js[all[k]].weights);
        assert all[..k + 1][..k] == all[..k];
        k := k + 1;
      }
      assert all[..k] == all;
    }

    /**
      `checkForAnimation`: the mesh is animated when a joint of AllJoints has a source
      with keys, or failing that when one carries weights. Only then is the animation
      length recomputed, as the largest last-key frame of those sources (at least 0). The
      first time it finds an animation it marks the mesh prepared for skinning and adds
      up the weights.
     */
    method CheckForAnimation()
      requires Valid()
      requires !preparedForSkinning ==> OrderFits(ZeroTotals(bufferSizes), joints, allJoints)
      modifies this
      ensures joints == old(joints) && Layout() == old(Layout()) && Tables() == old(Tables())
      ensures Valid()
      ensures hasAnimation == HasAnimationOf(joints, allJoints)
      ensures animationFrames == if hasAnimation then AnimationLength(joints, allJoints, |allJoints|)
                                 else old(animationFrames)
      ensures preparedForSkinning == (old(preparedForSkinning) || hasAnimation)
      ensures !skinnedLastFrame && lastAnimatedFrame == old(lastAnimatedFrame)
    {
      hasAnimation := FindAnimation(joints, allJoints);
      if hasAnimation {
        animationFrames := MeasureAnimation(joints, allJoints);
      }
      if hasAnimation && !preparedForSkinning {
        preparedForSkinning := true;
        var totals := NormalizeWeights();
      }
      skinnedLastFrame := false;
    }

    // ------------------------------------------------------------ bind pose

    /** `calculateGlobalMatrices(0, 0)`: every root's subtree bind-posed in turn. */
    method CalculateGlobalMatrices()
      requires Valid()
      modifies this
      ensures Layout() == old(Layout()) && Tables() == old(Tables()) && Status() == old(Status())
      ensures Valid()
      ensures joints == BindAll(old(joints), parents, algebra, roots)
      ensures skinnedLastFrame == (old(skinnedLastFrame) && roots == [])
    {
      var js0, rs, js := joints, roots, joints;
      ghost var ps := parents;
      assert Forest(js0, ps) && InArena(js0, rs) && Distinct(rs);
      assert forall i | 0 <= i < |rs| :: ps[rs[i]] == -1;
      var k := 0;
      while k < |rs|
        modifies {}
        invariant 0 <= k <= |rs|
        invariant js == BindTops(js0, ps, algebra, rs, k)
      {
        BindRootStep(js0, ps, algebra, rs, k);
        js := BindPass(js, ps, algebra, rs[k], None);
        k := k + 1;
      }
      BindRootsWhole(js0, ps, algebra, rs);
      BindTopsKeeps(js0, ps, algebra, rs, |rs|);
      WellformedKeptBy(js0, js, ps, allJoints, rs);
      joints := js;
      if roots != [] {
        skinnedLastFrame := false;
      }
    }

    // ------------------------------------------------------------ animated matrices

    /**
      `buildAllLocalAnimatedMatrices`: each joint of AllJoints whose source has keys
      leaves global skinning space and gets the matrix of its animated pose; every other
      joint of AllJoints gets its local matrix back.
     */
    method BuildAllLocalAnimatedMatrices()
      requires Valid()
      modifies this
      ensures Layout() == old(Layout()) && Tables() == old(Tables()) && Status() == old(Status())
      ensures Valid()
      ensures joints == LocalBuilt(old(joints), allJoints)
      ensures !skinnedLastFrame
    {
      var js0, all, js := joints, allJoints, joints;
      assert SourcesInRange(js0) && InArena(js0, all) && Distinct(all);
      var k := 0;
      while k < |all|
        modifies {}
        invariant 0 <= k <= |all| && |js| == |js0|
        invariant forall d | 0 <= d < |js0| ::
                    js[d] == if d in all[..k] then BuildLocal(js0, d) else js0[d]
      {
        var j := all[k];
        assert j !in all[..k];
        var jt := js[j];
        var source := jt.animationSource;
        if source.Some? && HasKeys(js[source.value].keys) {
          var m := Q.TransposedMatrixOf(jt.pose.rotation);
          m := Translated(m, jt.pose.position);
          if |jt.keys.scale| > 0 {
            m := Scaled(m, jt.pose.scale);
          }
          jt := jt.(globalSkinningSpace := false, localAnimated := m);
        } else {
          jt := jt.(localAnimated := jt.local);
        }
        js := js[j := jt];
        assert all[..k + 1] == all[..k] + [j];
        k := k + 1;
      }
      assert all[..k] == all;
      assert js == LocalBuilt(js0, all);
      WellformedKeptBy(js0, js, parents, all, roots);
      joints := js;
      skinnedLastFrame := false;
    }

    /** `buildAllGlobalAnimatedMatrices()`: every root's subtree in turn. */
    method BuildAllGlobalAnimatedMatrices()
      requires Valid()
      modifies this
      ensures Layout() == old(Layout()) && Tables() == old(Tables()) && Status() == old(Status())
      ensures Valid()
      ensures joints == AnimateAll(old(joints), parents, algebra, roots)
      ensures skinnedLastFrame == old(skinnedLastFrame)
    {
      var js0, rs, js := joints, roots, joints;
      ghost var ps := parents;
      assert Forest(js0, ps) && InArena(js0, rs) && Distinct(rs);
      assert forall i | 0 <= i < |rs| :: ps[rs[i]] == -1;
      var k := 0;
      while k < |rs|
        modifies {}
        invariant 0 <= k <= |rs|
        invariant js == AnimateTops(js0, ps, algebra, rs, k)
      {
        AnimateRootStep(js0, ps, algebra, rs, k);
        js := AnimatePass(js, ps, algebra, rs[k], None);
        k := k + 1;
      }
      AnimateRootsWhole(js0, ps, algebra, rs);
      AnimateTopsKeeps(js0, ps, algebra, rs, |rs|);
      WellformedKeptBy(js0, js, ps, allJoints, rs);
      joints := js;
    }

    // ------------------------------------------------------------ per frame

    /**
      `animateMesh(frame, blend)`: nothing happens without an animation or when `frame`
      was the last one animated. Otherwise the frame is recorded and the skinning marked
      stale; a blend of at most 0 stops there. Any other blend poses every joint of
      AllJoints (see `PoseJoints`) and rebuilds the local animated matrices.
     */
    method AnimateMesh(frame: real, blend: real)
      requires Valid()
      modifies this
      ensures Layout() == old(Layout()) && Tables() == old(Tables()) && Valid()
      ensures animationFrames == old(animationFrames) && hasAnimation == old(hasAnimation)
      ensures preparedForSkinning == old(preparedForSkinning) && SameShape(old(joints), joints)
      ensures !old(hasAnimation) || old(lastAnimatedFrame) == frame ==>
                joints == old(joints) && lastAnimatedFrame == old(lastAnimatedFrame)
                && skinnedLastFrame == old(skinnedLastFrame)
      ensures old(hasAnimation) && old(lastAnimatedFrame) != frame ==>
                lastAnimatedFrame == frame && !skinnedLastFrame
                && joints == if blend <= 0.0 then old(joints)
                             else LocalBuilt(AnimateAllJoints(old(joints), allJoints, frame, blend, trig), allJoints)
    {
      if !hasAnimation || lastAnimatedFrame == frame {
        return;
      }
      lastAnimatedFrame := frame;
      skinnedLastFrame := false;
      if blend <= 0.0 {
        return;
      }
      var js := PoseJoints(frame, blend);
      WellformedKeptBy(joints, js, parents, allJoints, roots);
      joints := js;
      BuildAllLocalAnimatedMatrices();
    }

    /**
      The joint loop of `animateMesh`: each joint of AllJoints samples its source's
      tracks from its current pose and hints; with blend 1 the sample replaces the pose,
      otherwise position and scale are mixed linearly and the rotation slerped.
     */
    method PoseJoints(frame: real, blend: real) returns (js: seq<Joint>)
      requires Valid()
      ensures js == AnimateAllJoints(joints, allJoints, frame, blend, trig)
    {
      var all := allJoints;
      js := joints;
      assert InArena(js, all) && Distinct(all);
      var k := 0;
      while k < |all|
        invariant 0 <= k <= |all| && |js| == |joints|
        invariant forall d | 0 <= d < |joints| ::
                    js[d] == if d in all[..k] then AnimateJoint(joints, d, frame, blend, trig) else joints[d]
      {
        var j := all[k];
        assert j !in all[..k];
        var previous := js[j].pose;
        var pose, hints := GetFrameData(frame, j, previous, js[j].hints);
        if blend == 1.0 {
          js := js[j := js[j].(pose := pose, hints := hints)];
        } else {
          var mixed := Pose(V.Add(V.Scale(previous.position, 1.0 - blend), V.Scale(pose.position, blend)),
                            V.Add(V.Scale(previous.scale, 1.0 - blend), V.Scale(pose.scale, blend)),
                            Q.SlerpOf(previous.rotation, pose.rotation, blend, Q.DefaultSlerpThreshold, trig));
          js := js[j := js[j].(pose := mixed, hints := hints)];
        }
        assert all[..k + 1] == all[..k] + [j];
        k := k + 1;
      }
      assert all[..k] == all;
    }

    /**
      `skinMesh`: nothing happens without an animation or when this frame is already
      skinned. Otherwise the animated globals are rebuilt, the frame is marked skinned,
      and JointMatrixes is refilled from the roots: one matrix per weighted joint, in
      the order of `SkinOrder`, which is the order `computeWeightInfluence` numbered the
      joints in.
     */
    method SkinMesh()
      requires Valid()
      modifies this
      ensures Layout() == old(Layout()) && Status() == old(Status()) && Valid()
      ensures influences == old(influences) && weightBuffers == old(weightBuffers) && SameShape(old(joints), joints)
      ensures !hasAnimation || old(skinnedLastFrame) ==>
                joints == old(joints) && jointMatrixes == old(jointMatrixes) && skinnedLastFrame == old(skinnedLastFrame)
      ensures hasAnimation && !old(skinnedLastFrame) ==>
                && skinnedLastFrame
                && joints == AnimateAll(old(joints), parents, algebra, roots)
                && jointMatrixes == SkinMatrices(joints, algebra, SkinOrder(joints, roots))
    {
      if !hasAnimation || skinnedLastFrame {
        return;
      }
      BuildAllGlobalAnimatedMatrices();
      skinnedLastFrame := true;
      jointMatrixes := SkinRoots(joints, algebra, roots);
    }

    // ------------------------------------------------------------ finalize

    /**
      The list step of `finalize`: with RootJoints empty, every joint of AllJoints for
      which `hasParent` fails becomes a root; otherwise AllJoints becomes RootJoints.
      Nothing happens when both are empty.
     */
    method DeriveJointLists()
      requires Valid()
      modifies this
      ensures joints == old(joints) && parents == old(parents) && bufferSizes == old(bufferSizes)
      ensures Tables() == old(Tables()) && Status() == old(Status()) && skinnedLastFrame == old(skinnedLastFrame)
      ensures allJoints == ListedJoints(old(allJoints), old(roots))
      ensures roots == ListedRoots(old(joints), old(allJoints), old(roots))
      ensures Valid()
    {
      ListedKeepsWellformed(joints, parents, allJoints, roots);
      if allJoints != [] || roots != [] {
        if roots == [] {
          roots := FindRoots();
        } else {
          allJoints := roots;
        }
      }
    }

    /** The root search of `finalize`: the joints of AllJoints for which `hasParent` fails, in order. */
    method FindRoots() returns (rs: seq<nat>)
      requires Valid()
      ensures rs == RootsAmong(joints, allJoints, |allJoints|)
    {
      rs := [];
      var k := 0;
      while k < |allJoints|
        invariant 0 <= k <= |allJoints|
        invariant rs == RootsAmong(joints, allJoints, k)
      {
        var hasParent := HasParent(allJoints[k]);
        if !hasParent {
          rs := rs + [allJoints[k]];
        }
        k := k + 1;
      }
    }

    /** The source step of `finalize`: every joint of AllJoints animates from its own keys. */
    method SetAnimationSources()
      requires Valid()
      modifies this
      ensures Layout() == old(Layout()) && Tables() == old(Tables()) && Status() == old(Status())
      ensures skinnedLastFrame == old(skinnedLastFrame) && Valid()
      ensures joints == SetSources(old(joints), allJoints)
    {
      var js := SourceJoints(joints, allJoints);
      SetSourcesKeeps(joints, parents, allJoints, roots);
      joints := js;
    }

    /**
      The key step of `finalize`, on an animated mesh: every track of every joint of
      AllJoints starts at frame 0 and ends at the animation length. The key checks that
      come first only terminate on settled tracks, which the precondition demands.
     */
    method FillKeys()
      requires Valid()
      requires forall k | 0 <= k < |allJoints| :: TracksSettled(joints[allJoints[k]].keys)
      modifies this
      ensures Layout() == old(Layout()) && Tables() == old(Tables()) && Status() == old(Status())
      ensures skinnedLastFrame == old(skinnedLastFrame) && Valid()
      ensures joints == if hasAnimation then FillAll(old(joints), allJoints, animationFrames) else old(joints)
    {
      if hasAnimation {
        var js := FillJoints(joints, allJoints, animationFrames);
        WellformedKeptBy(joints, js, parents, allJoints, roots);
        joints := js;
      }
    }

    /**
      The weight step of `finalize`: one empty contribution list per vertex of each mesh
      buffer is appended to Weights, then `computeWeightInfluence` runs from each root
      with a shared counter starting at 0.
     */
    method OrganiseWeights()
      requires Valid()
      requires OrderFits(influences + EmptyTables(bufferSizes), joints, SkinOrder(joints, roots))
      modifies this
      ensures joints == old(joints) && Layout() == old(Layout()) && Status() == old(Status())
      ensures weightBuffers == old(weightBuffers) && jointMatrixes == old(jointMatrixes)
      ensures skinnedLastFrame == old(skinnedLastFrame) && Valid()
      ensures influences == AddInfluences(old(influences) + EmptyTables(bufferSizes), joints, SkinOrder(joints, roots), 0)
    {
      var t := AppendEmptyTables(influences, bufferSizes);
      var count;
      influences, count := ComputeRootInfluences(t, joints, roots);
    }

    /**
      The packing step of `finalize`: every buffer of Weights has each vertex's list
      sorted in place and packed, and the packed buffers are appended to WeightBuffers.
     */
    method PackWeights()
      modifies this
      ensures joints == old(joints) && Layout() == old(Layout()) && Status() == old(Status())
      ensures jointMatrixes == old(jointMatrixes) && skinnedLastFrame == old(skinnedLastFrame)
      ensures influences == SortTable(old(influences))
      ensures weightBuffers == old(weightBuffers) + PackTable(influences)
    {
      var sorted, packed := PackTableWeights(influences);
      influences, weightBuffers := sorted, weightBuffers + packed;
    }

    /**
      The first steps of `finalize`: the frame bookkeeping is reset, the joint lists
      filled in, every joint of AllJoints made its own animation source and the
      animation detected. The weights `normalizeWeights` visits must name existing
      vertices.
     */
    method PrepareAnimation()
      requires Valid()
      requires !preparedForSkinning ==> OrderFits(ZeroTotals(bufferSizes), joints, ListedJoints(allJoints, roots))
      modifies this
      ensures Valid() && parents == old(parents) && bufferSizes == old(bufferSizes) && Tables() == old(Tables())
      ensures allJoints == ListedJoints(old(allJoints), old(roots))
      ensures roots == ListedRoots(old(joints), old(allJoints), old(roots))
      ensures joints == SetSources(old(joints), allJoints)
      ensures hasAnimation == HasAnimationOf(joints, allJoints)
      ensures animationFrames == if hasAnimation then AnimationLength(joints, allJoints, |allJoints|)
                                 else old(animationFrames)
      ensures preparedForSkinning == (old(preparedForSkinning) || hasAnimation)
      ensures lastAnimatedFrame == -1.0 && !skinnedLastFrame
    {
      ghost var given := joints;
      lastAnimatedFrame := -1.0;
      skinnedLastFrame := false;
      DeriveJointLists();
      SetAnimationSources();
      SetSourcesKeeps(given, parents, allJoints, roots);
      if !preparedForSkinning {
        OrderFitsByShape(ZeroTotals(bufferSizes), given, joints, allJoints);
      }
      CheckForAnimation();
    }

    /**
      The joint half of `finalize`: `PrepareAnimation`, then the tracks filled and the
      bind pose computed. The key checks before the fill terminate only on settled
      tracks, which the precondition demands.
     */
    method PrepareJoints()
      requires Valid()
      requires var all := ListedJoints(allJoints, roots);
               && (!preparedForSkinning ==> OrderFits(ZeroTotals(bufferSizes), joints, all))
               && (forall k | 0 <= k < |all| :: TracksSettled(joints[all[k]].keys))
      modifies this
      ensures Valid() && parents == old(parents) && bufferSizes == old(bufferSizes) && Tables() == old(Tables())
      ensures allJoints == ListedJoints(old(allJoints), old(roots))
      ensures roots == ListedRoots(old(joints), old(allJoints), old(roots))
      ensures var sourced := SetSources(old(joints), allJoints);
              && hasAnimation == HasAnimationOf(sourced, allJoints)
              && animationFrames == (if hasAnimation then AnimationLength(sourced, allJoints, |allJoints|)
                                     else old(animationFrames))
              && joints == BindAll(if hasAnimation then FillAll(sourced, allJoints, animationFrames) else sourced,
                                   parents, algebra, roots)
      ensures preparedForSkinning == (old(preparedForSkinning) || hasAnimation)
      ensures SameShape(old(joints), joints)
      ensures lastAnimatedFrame == -1.0 && !skinnedLastFrame
    {
      ghost var given := joints;
      PrepareAnimation();
      ghost var sourced := joints;
      SetSourcesKeeps(given, parents, allJoints, roots);
      FillKeys();
      ghost var filled := joints;
      assert filled == if hasAnimation then FillAll(sourced, allJoints, animationFrames) else sourced;
      CalculateGlobalMatrices();
      BindKeepsShape(filled, parents, algebra, roots);
    }

    /**
      `finalize`: `PrepareJoints`, then the weights organised by buffer and packed four
      per vertex. Every weight of a joint the roots reach must name an existing vertex.
     */
    method Finalize()
      requires Valid()
      requires var all := ListedJoints(allJoints, roots);
               && (!preparedForSkinning ==> OrderFits(ZeroTotals(bufferSizes), joints, all))
               && (forall k | 0 <= k < |all| :: TracksSettled(joints[all[k]].keys))
      requires OrderFits(influences + EmptyTables(bufferSizes),
                         joints, SkinOrder(joints, ListedRoots(joints, allJoints, roots)))
      modifies this
      ensures Valid() && parents == old(parents) && bufferSizes == old(bufferSizes)
      ensures allJoints == ListedJoints(old(allJoints), old(roots))
      ensures roots == ListedRoots(old(joints), old(allJoints), old(roots))
      ensures var sourced := SetSources(old(joints), allJoints);
              && hasAnimation == HasAnimationOf(sourced, allJoints)
              && animationFrames == (if hasAnimation then AnimationLength(sourced, allJoints, |allJoints|)
                                     else old(animationFrames))
              && joints == BindAll(if hasAnimation then FillAll(sourced, allJoints, animationFrames) else sourced,
                                   parents, algebra, roots)
      ensures preparedForSkinning == (old(preparedForSkinning) || hasAnimation)
      ensures influences == SortTable(AddInfluences(old(influences) + EmptyTables(bufferSizes),
                                                    joints, SkinOrder(joints, roots), 0))
      ensures weightBuffers == old(weightBuffers) + PackTable(influences)
      ensures jointMatrixes == old(jointMatrixes)
      ensures lastAnimatedFrame == -1.0 && !skinnedLastFrame
    {
      ghost var given := joints;
      PrepareJoints();
      WalkRootsDependsOnShape(given, joints, roots, |roots|);
      OrderFitsByShape(influences + EmptyTables(bufferSizes), given, joints, SkinOrder(given, roots));
      OrganiseWeights();
      PackWeights();
    }
  }

  /** The buffer loop of `finalize`: one empty contribution list per vertex of each buffer, appended. */
  method AppendEmptyTables(t: seq<seq<seq<Influence>>>, sizes: seq<nat>) returns (r: seq<seq<seq<Influence>>>)
    ensures r == t + EmptyTables(sizes)
  {
    r := t;
    var b := 0;
    while b < |sizes|
      invariant 0 <= b <= |sizes| && |r| == |t| + b
      invariant r[..|t|] == t
      invariant forall i | 0 <= i < b :: r[|t| + i] == EmptyTables(sizes)[i]
    {
      var empty := seq(sizes[b], v => []);
      assert empty == EmptyTables(sizes)[b];
      r := r + [empty];
      b := b + 1;
    }
  }

  /** The root loop of `skinMesh`: `skinJoint` from each root in turn, into an empty list. */
  method SkinRoots(js: seq<Joint>, alg: Algebra, roots: seq<nat>) returns (ms: seq<Matrix>)
    requires ChildrenAfter(js) && InArena(js, roots)
    ensures ms == SkinMatrices(js, alg, SkinOrder(js, roots))
  {
    ms := [];
    var k := 0;
    while k < |roots|
      invariant 0 <= k <= |roots|
      invariant ms == SkinMatrices(js, alg, WalkRoots(js, roots, k))
    {
      SkinRootStep(js, alg, roots, k);
      ms := SkinJoint(js, alg, roots[k], ms);
      k := k + 1;
    }
  }

  /** The source loop of `finalize` on the arena value: each joint of `all` becomes its own source. */
  method SourceJoints(js: seq<Joint>, all: seq<nat>) returns (r: seq<Joint>)
    requires InArena(js, all)
    ensures r == SetSources(js, all)
  {
    r := js;
    var k := 0;
    while k < |all|
      invariant 0 <= k <= |all| && |r| == |js|
      invariant forall d | 0 <= d < |js| ::
                  r[d] == if d in all[..k] then js[d].(animationSource := Some(d)) else js[d]
    {
      var j := all[k];
      r := r[j := r[j].(animationSource := Some(j))];
      assert all[..k + 1] == all[..k] + [j];
      k := k + 1;
    }
    assert all[..k] == all;
  }

  /** The fill loop of `finalize` on the arena value: the tracks of each joint of `all` filled once. */
  method FillJoints(js: seq<Joint>, all: seq<nat>, frames: real) returns (r: seq<Joint>)
    requires InArena(js, all) && Distinct(all)
    ensures r == FillAll(js, all, frames)
  {
    r := js;
    var k := 0;
    while k < |all|
      invariant 0 <= k <= |all| && |r| == |js|
      invariant forall d | 0 <= d < |js| ::
                  r[d] == if d in all[..k] then js[d].(keys := FillTracks(js[d].keys, frames)) else js[d]
    {
      var j := all[k];
      assert j !in all[..k];
      r := r[j := r[j].(keys := FillTracks(r[j].keys, frames))];
      assert all[..k + 1] == all[..k] + [j];
      k := k + 1;
    }
    assert all[..k] == all;
  }

  /**
    The root loop of `finalize`: `computeWeightInfluence` from each root with one
    counter starting at 0, which ends at the number of weighted joints reached.
   */
  method ComputeRootInfluences(t: seq<seq<seq<Influence>>>, js: seq<Joint>, roots: seq<nat>)
    returns (r: seq<seq<seq<Influence>>>, count: nat)
    requires ChildrenAfter(js) && InArena(js, roots) && OrderFits(t, js, SkinOrder(js, roots))
    ensures r == AddInfluences(t, js, SkinOrder(js, roots), 0)
    ensures count == |SkinOrder(js, roots)|
  {
    r, count := t, 0;
    var k := 0;
    while k < |roots|
      invariant 0 <= k <= |roots|
      invariant RootsDone(t, js, roots, k, r, count)
    {
      RootOrderFits(t, r, js, roots, k);
      var r', count' := ComputeWeightInfluence(r, js, roots[k], count);
      InfluenceRootStep(t, js, roots, k, r, count, r', count');
      r, count := r', count';
      k := k + 1;
    }
  }

  /** The packing loop of `finalize` over every buffer of the table. */
  method PackTableWeights(t: seq<seq<seq<Influence>>>) returns (sorted: seq<seq<seq<Influence>>>, packed: seq<seq<WeightInfluence>>)
    ensures sorted == SortTable(t)
    ensures packed == PackTable(sorted)
  {
    sorted, packed := t, [];
    var b := 0;
    while b < |t|
      invariant 0 <= b <= |t| && |sorted| == |t| && |packed| == b
      invariant forall i | 0 <= i < b :: sorted[i] == SortBuffer(t[i]) && packed[i] == PackBuffer(sorted[i])
      invariant forall i | b <= i < |t| :: sorted[i] == t[i]
    {
      var vs, slots := PackBufferWeights(sorted[b]);
      sorted := sorted[b := vs];
      packed := packed + [slots];
      b := b + 1;
    }
  }

  /** The inner loop of `normalizeWeights`: one joint's positive strengths added to their vertices. */
  method AddWeightStrengths(t: seq<seq<real>>, ws: seq<Weight>) returns (totals: seq<seq<real>>)
    requires AllFit(t, ws)
    ensures totals == AddStrengths(t, ws)
  {
    totals := t;
    var i := 0;
    while i < |ws|
      invariant 0 <= i <= |ws|
      invariant totals == AddStrengths(t, ws[..i])
    {
      var w := ws[i];
      assert ws[..i + 1][..i] == ws[..i];
      if w.strength > 0.0 {
        totals := totals[w.bufferId := totals[w.bufferId][w.vertexId := totals[w.bufferId][w.vertexId] + w.strength]];
      }
      i := i + 1;
    }
    assert ws[..i] == ws;
  }

  /**
    The two searches of `checkForAnimation`: first for a joint of `all` whose source has
    keys, then, only if there is none, for one that carries weights.
   */
  method FindAnimation(js: seq<Joint>, all: seq<nat>) returns (animated: bool)
    requires InArena(js, all) && SourcesInRange(js)
    ensures animated == HasAnimationOf(js, all)
  {
    animated := false;
    var k := 0;
    while k < |all|
      invariant 0 <= k <= |all|
      invariant forall k' | 0 <= k' < k :: !SourceHasKeys(js, all[k'])
    {
      var source := js[all[k]].animationSource;
      if source.Some? && HasKeys(js[source.value].keys) {
        return true;
      }
      k := k + 1;
    }
    k := 0;
    while k < |all|
      invariant 0 <= k <= |all|
      invariant forall k' | 0 <= k' < k :: |js[all[k']].weights| == 0
    {
      if |js[all[k]].weights| > 0 {
        return true;
      }
      k := k + 1;
    }
  }

  /**
    The length loop of `checkForAnimation`: starting from 0, the largest last-key frame
    of any track of the sources of `all` (see AnimationLengthIsMax).
   */
  method MeasureAnimation(js: seq<Joint>, all: seq<nat>) returns (frames: real)
    requires InArena(js, all) && SourcesInRange(js)
    ensures frames == AnimationLength(js, all, |all|)
  {
    frames := 0.0;
    var k := 0;
    while k < |all|
      invariant 0 <= k <= |all|
      invariant frames == AnimationLength(js, all, k)
    {
      var source := js[all[k]].animationSource;
      if source.Some? {
        var t := js[source.value].keys;
        if |t.position| > 0 && t.position[|t.position| - 1].frame > frames {
          frames := t.position[|t.position| - 1].frame;
        }
        if |t.scale| > 0 && t.scale[|t.scale| - 1].frame > frames {
          frames := t.scale[|t.scale| - 1].frame;
        }
        if |t.rotation| > 0 && t.rotation[|t.rotation| - 1].frame > frames {
          frames := t.rotation[|t.rotation| - 1].frame;
        }
      }
      k := k + 1;
    }
  }

  /**
    `calculateGlobalMatrices` on joint `j` whose parent is `parent`, on the arena value:
    the joint's global matrix is its local matrix, or its parent's global times it; its
    animated matrices are reset and its inverse recomputed when the stored one is the
    identity; then each child's subtree follows in turn. The result is the arena with
    the subtree of `j` bind-posed and everything else as it was.
   */
  method BindPass(js: seq<Joint>, ghost parents: seq<int>, alg: Algebra, j: nat, parent: Option<nat>)
    returns (r: seq<Joint>)
    requires Forest(js, parents) && j < |js|
    requires parent == (if parents[j] >= 0 then Some(parents[j]) else None)
    requires parent.Some? ==> js[parent.value].global == BindGlobal(js, parents, alg, parent.value)
    decreases |js| - j
    ensures r == BindSubtree(js, parents, alg, j)
  {
    var global := if parent.None? then js[j].local else alg.mul(js[parent.value].global, js[j].local);
    r := js[j := BindPosed(js[j], global, alg)];
    ghost var first := r;
    var children := js[j].children;
    var k := 0;
    while k < |children|
      invariant 0 <= k <= |children|
      invariant r == BindTops(first, parents, alg, children, k)
    {
      BindChildStep(js, parents, alg, j, k);
      r := BindPass(r, parents, alg, children[k], Some(j));
      k := k + 1;
    }
    BindChildrenWhole(js, parents, alg, j);
  }

  /**
    `buildAllGlobalAnimatedMatrices` on joint `j` whose parent is `parent`, on the arena
    value: the joint's animated global is its animated local when it has no parent or is
    in global skinning space, otherwise the parent's animated global times it; then each
    child's subtree follows. The result rebuilds the animated globals of that subtree.
   */
  method AnimatePass(js: seq<Joint>, ghost parents: seq<int>, alg: Algebra, j: nat, parent: Option<nat>)
    returns (r: seq<Joint>)
    requires Forest(js, parents) && j < |js|
    requires parent == (if parents[j] >= 0 then Some(parents[j]) else None)
    requires parent.Some? ==> js[parent.value].globalAnimated == AnimGlobal(js, parents, alg, parent.value)
    decreases |js| - j
    ensures r == AnimateSubtree(js, parents, alg, j)
  {
    var jt := js[j];
    if parent.None? || jt.globalSkinningSpace {
      jt := jt.(globalAnimated := jt.localAnimated);
    } else {
      jt := jt.(globalAnimated := alg.mul(js[parent.value].globalAnimated, jt.localAnimated));
    }
    r := js[j := jt];
    ghost var first := r;
    var children := js[j].children;
    var k := 0;
    while k < |children|
      invariant 0 <= k <= |children|
      invariant r == AnimateTops(first, parents, alg, children, k)
    {
      AnimateChildStep(js, parents, alg, j, k);
      r := AnimatePass(r, parents, alg, children[k], Some(j));
      k := k + 1;
    }
    AnimateChildrenWhole(js, parents, alg, j);
  }

  // -------------------------------------------------------------- skinning walks

  /**
    `skinJoint` on joint `j`: a weighted joint appends GlobalAnimated times
    GlobalInversed to the matrices, then each child's subtree follows. The result is the
    list it started from followed by one matrix per weighted joint of the subtree, in
    walk order.
   */
  method SkinJoint(js: seq<Joint>, alg: Algebra, j: nat, matrices: seq<Matrix>) returns (r: seq<Matrix>)
    requires ChildrenAfter(js) && j < |js|
    decreases |js| - j
    ensures r == matrices + SkinMatrices(js, alg, Walk(js, j))
  {
    r := matrices;
    if |js[j].weights| > 0 {
      r := r + [alg.mul(js[j].globalAnimated, js[j].globalInversed)];
    }
    SkinOwn(js, alg, j, matrices, r);
    ghost var start := r;
    var children := js[j].children;
    var k := 0;
    SkinChildrenStart(js, alg, j, start);
    while k < |children|
      invariant 0 <= k <= |children|
      invariant SkinnedChildren(js, alg, j, k, start, r)
    {
      ghost var before := r;
      r := SkinJoint(js, alg, children[k], r);
      SkinChildAppend(js, alg, j, k, start, before, r);
      k := k + 1;
    }
    SkinJointEnd(js, alg, j, matrices, start, r);
  }

  /** The weight loop of `computeWeightInfluence`: each weight, in order, adds (index, strength) to its vertex. */
  method PushJointWeights(t: seq<seq<seq<Influence>>>, ws: seq<Weight>, index: nat)
    returns (r: seq<seq<seq<Influence>>>)
    requires AllFit(t, ws)
    ensures r == PushWeights(t, ws, index)
  {
    r := t;
    var i := 0;
    while i < |ws|
      invariant 0 <= i <= |ws|
      invariant r == PushWeights(t, ws[..i], index)
    {
      var w := ws[i];
      assert ws[..i + 1][..i] == ws[..i];
      r := r[w.bufferId := r[w.bufferId][w.vertexId := r[w.bufferId][w.vertexId] + [Influence(index, w.strength)]]];
      i := i + 1;
    }
    assert ws[..i] == ws;
  }

  /**
    `computeWeightInfluence` on joint `j` with the counter at `index`: a weighted joint
    adds its weights under the current index and takes the next, then each child's
    subtree follows. The walk is the one `SkinJoint` takes, so the indices handed out
    are positions in the skinning matrix list.
   */
  method ComputeWeightInfluence(t: seq<seq<seq<Influence>>>, js: seq<Joint>, j: nat, index: nat)
    returns (r: seq<seq<seq<Influence>>>, next: nat)
    requires ChildrenAfter(js) && j < |js| && OrderFits(t, js, Walk(js, j))
    decreases |js| - j, 2
    ensures r == AddInfluences(t, js, Walk(js, j), index)
    ensures next == index + |Walk(js, j)|
  {
    var own, after := PushOwnInfluence(t, js, j, index);
    ChildrenOrderFit(t, own, js, j);
    r, next := ComputeChildInfluences(own, js, j, after);
    InfluenceWalkSplit(t, js, j, index, own, r);
  }

  /** The first half of `computeWeightInfluence`: a weighted joint pushes its weights and takes an index. */
  method PushOwnInfluence(t: seq<seq<seq<Influence>>>, js: seq<Joint>, j: nat, index: nat)
    returns (r: seq<seq<seq<Influence>>>, next: nat)
    requires ChildrenAfter(js) && j < |js| && OrderFits(t, js, Walk(js, j))
    ensures r == AddInfluences(t, js, Own(js, j), index) && SameLayout(t, r)
    ensures next == index + |Own(js, j)|
  {
    r, next := t, index;
    if |js[j].weights| > 0 {
      assert Walk(js, j)[0] == j;
      r := PushJointWeights(r, js[j].weights, index);
      next := index + 1;
      assert Own(js, j)[..0] == [];
    }
  }

  /** The loop of `computeWeightInfluence` over the children of joint `j`. */
  method ComputeChildInfluences(t: seq<seq<seq<Influence>>>, js: seq<Joint>, j: nat, index: nat)
    returns (r: seq<seq<seq<Influence>>>, next: nat)
    requires ChildrenAfter(js) && j < |js| && OrderFits(t, js, WalkChildren(js, j, |js[j].children|))
    decreases |js| - j, 1
    ensures r == AddInfluences(t, js, WalkChildren(js, j, |js[j].children|), index)
    ensures next == index + |WalkChildren(js, j, |js[j].children|)|
  {
    r, next := t, index;
    var k := 0;
    while k < |js[j].children|
      invariant 0 <= k <= |js[j].children|
      invariant ChildrenDone(t, js, j, k, index, r, next)
    {
      r, next := ComputeChildInfluence(t, js, j, k, index, r, next);
      k := k + 1;
    }
  }

  /** One pass of that loop: child `k`'s subtree. */
  method ComputeChildInfluence(t: seq<seq<seq<Influence>>>, js: seq<Joint>, j: nat, k: nat, index: nat,
                               r: seq<seq<seq<Influence>>>, next: nat)
    returns (r': seq<seq<seq<Influence>>>, next': nat)
    requires ChildrenAfter(js) && j < |js| && k < |js[j].children|
    requires OrderFits(t, js, WalkChildren(js, j, |js[j].children|))
    requires ChildrenDone(t, js, j, k, index, r, next)
    decreases |js| - j, 0
    ensures ChildrenDone(t, js, j, k + 1, index, r', next')
  {
    ChildOrderFits(t, r, js, j, k);
    r', next' := ComputeWeightInfluence(r, js, js[j].children[k], next);
    InfluenceChildStep(t, js, j, k, index, r, next, r', next');
  }

  // -------------------------------------------------------------- packing

  /**
    The top-4 packing of one vertex whose contributions are already sorted: the first
    min(4, n) slots take index and strength, the rest index -1 and strength 0, and each
    slot's weight is divided by the sum of the kept strengths.
   */
  method PackVertex(c: seq<Influence>) returns (slots: seq<WeightInfluence>)
    ensures slots == PackedVertex(c)
  {
    var indices := new int[4](_ => 0);
    var weights := new real[4](_ => 0.0);
    var currentWeight := 0.0;
    var bound := if |c| > 4 then 4 else |c|;
    var k := 0;
    while k < bound
      invariant 0 <= k <= bound
      invariant currentWeight == KeptSum(c, k)
      invariant forall i | 0 <= i < k :: indices[i] == c[i].index && weights[i] == c[i].strength
      invariant forall i | k <= i < 4 :: weights[i] == 0.0
    {
      indices[k] := c[k].index;
      weights[k] := c[k].strength;
      currentWeight := currentWeight + c[k].strength;
      k := k + 1;
    }
    while k < 4
      invariant bound <= k <= 4
      invariant forall i | 0 <= i < bound :: indices[i] == c[i].index && weights[i] == c[i].strength
      invariant forall i | bound <= i < k :: indices[i] == -1
      invariant forall i | bound <= i < 4 :: weights[i] == 0.0
    {
      indices[k] := -1;
      k := k + 1;
    }
    slots := [];
    var i := 0;
    while i < 4
      invariant 0 <= i <= 4 && |slots| == i
      invariant forall s | 0 <= s < i :: slots[s] == WeightInfluence(indices[s], Quotient(weights[s], currentWeight))
    {
      slots := slots + [WeightInfluence(indices[i], Quotient(weights[i], currentWeight))];
      i := i + 1;
    }
  }

  /**
    One buffer of the packing loop of `finalize`: each vertex's list is sorted by
    strength in place, then packed; the buffer's output is four slots per vertex in
    vertex order.
   */
  method PackBufferWeights(vs: seq<seq<Influence>>) returns (sorted: seq<seq<Influence>>, packed: seq<WeightInfluence>)
    ensures sorted == SortBuffer(vs)
    ensures packed == PackBuffer(sorted)
  {
    sorted, packed := vs, [];
    var v := 0;
    while v < |vs|
      invariant 0 <= v <= |vs| && |sorted| == |vs|
      invariant forall i | 0 <= i < |vs| :: sorted[i] == if i < v then SortByStrength(vs[i]) else vs[i]
      invariant packed == PackBuffer(SortBuffer(vs)[..v])
    {
      sorted := sorted[v := SortByStrength(sorted[v])];
      var slots := PackVertex(sorted[v]);
      PackBufferStep(SortBuffer(vs), v);
      packed := packed + slots;
      v := v + 1;
    }
    assert SortBuffer(vs)[..v] == SortBuffer(vs);
  }

  /** `addJoint` keeps the arena a forest: the new joint comes last, after its parent. */
  lemma AddJointKeepsForest(js: seq<Joint>, parents: seq<int>, parent: Option<nat>,
                            js': seq<Joint>, parents': seq<int>)
    requires Forest(js, parents)
    requires parent.Some? ==> parent.value < |js|
    requires var n := |js|;
             |js'| == n + 1 && parents' == parents + [if parent.Some? then parent.value else -1]
             && (forall d | 0 <= d < n && (parent.None? || d != parent.value) :: js'[d] == js[d])
             && (parent.Some? ==> js'[parent.value].children == js[parent.value].children + [n])
             && js'[n].children == []
    ensures Forest(js', parents')
  {
    var n := |js|;
    forall p, i | 0 <= p < |js'| && 0 <= i < |js'[p].children|
      ensures p < js'[p].children[i] < |js'| && parents'[js'[p].children[i]] == p
    {
      if parent.Some? && p == parent.value && i == |js[p].children| {
        assert js'[p].children[i] == n;
      } else {
        assert p < n && js'[p].children[i] == js[p].children[i];
      }
    }
    forall c | 0 <= c < |js'| && 0 <= parents'[c]
      ensures c in js'[parents'[c]].children
    {
      if c < n {
        var p := parents[c];
        assert parents'[c] == p;
        assert c in js[p].children;
        var i :| 0 <= i < |js[p].children| && js[p].children[i] == c;
        assert js'[p].children[i] == c;
      }
    }
    forall p, i, k | 0 <= p < |js'| && 0 <= i < k < |js'[p].children|
      ensures js'[p].children[i] < js'[p].children[k]
    {
      if parent.Some? && p == parent.value && k == |js[p].children| {
        assert js'[p].children[i] == js[p].children[i] < n;
      } else {
        assert p < n;
        assert js'[p].children[i] == js[p].children[i] && js'[p].children[k] == js[p].children[k];
      }
    }
  }

  /**
    The contract between `finalize` and `skinMesh`: the packed weights index the list of
    skinning matrices. Let the weights be packed on arena `a` and the matrices built on
    an arena `b` of the same shape (animating and skinning change no children and no
    weights). Then every used slot of vertex `v` of buffer `buffer` holds an index into
    the matrices, and the matrix there belongs to a joint that carries a weight on that
    vertex.
   */
  lemma SlotSelectsWeightingJoint(t: seq<seq<seq<Influence>>>, a: seq<Joint>, b: seq<Joint>, alg: Algebra,
                                  roots: seq<nat>, buffer: nat, v: nat, s: nat)
    requires ChildrenAfter(a) && InArena(a, roots) && SameShape(a, b)
    requires buffer < |t| && v < |t[buffer]| && t[buffer][v] == [] && s < 4
    requires buffer < 0x1_0000 && v < 0x1_0000
    ensures ChildrenAfter(b)
    ensures var slot := PackTable(SortTable(AddInfluences(t, a, SkinOrder(a, roots), 0)))[buffer][4 * v + s];
            var ms := SkinMatrices(b, alg, SkinOrder(b, roots));
            slot.index != -1 ==>
              && 0 <= slot.index < |ms|
              && exists d | 0 <= d < |b| ::
                   && ms[slot.index] == alg.mul(b[d].globalAnimated, b[d].globalInversed)
                   && exists w | w in b[d].weights :: w.bufferId as int == buffer && w.vertexId as int == v
  {
    var order := SkinOrder(a, roots);
    WalkRootsDependsOnShape(a, b, roots, |roots|);
    PackedSlotNamesWeight(t, a, order, buffer, v, s);
    var slot := PackTable(SortTable(AddInfluences(t, a, order, 0)))[buffer][4 * v + s];
    if slot.index != -1 {
      var d := order[slot.index];
      SkinMatricesMeaning(b, alg, order);
      assert a[d].weights == b[d].weights;
    }
  }
}
