/**
  The joint forest of a skinned mesh (ISkinnedMesh::SJoint). Joints live in one arena,
  a sequence indexed by joint number; `addJoint` appends, so a joint's children always
  come after it in the arena, which is what keeps the forest acyclic. The ghost `parents`
  sequence records each joint's parent (-1 for none) for the proofs.
 */
module Skeleton {
  import opened Matrix4
  import opened Keyframes
  import V = Vector3d
  import Q = Quaternions

  datatype Option<T> = None | Some(value: T)

  /** `unsigned short`, the width of a weight's buffer and vertex ids. */
  newtype u16 = x: int | 0 <= x < 0x1_0000

  /** SWeight: the pull of one joint on one vertex of one mesh buffer. */
  datatype Weight = Weight(bufferId: u16, vertexId: u16, strength: real)

  /** SJoint, with its children as arena indices and UseAnimationFrom as an optional index. */
  datatype Joint = Joint(
    name: string,
    local: Matrix,
    children: seq<nat>,
    keys: Tracks,
    weights: seq<Weight>,
    global: Matrix,
    globalAnimated: Matrix,
    localAnimated: Matrix,
    pose: Pose,
    globalInversed: Matrix,
    animationSource: Option<nat>,
    globalSkinningSpace: bool,
    hints: Hints)

  /** A joint as `new SJoint` leaves it: identity matrices, zero vectors, no source, hints -1. */
  const NewJoint: Joint :=
    Joint("", Identity, [], Tracks([], [], []), [], Identity, Identity, Identity,
          Pose(V.Zero, V.Zero, Q.Identity), Identity, None, false, NoHints)

  // ---------------------------------------------------------------- forest shape

  /** Every parent comes before its child in the arena. */
  predicate ParentsBelow(parents: seq<int>) {
    forall c | 0 <= c < |parents| :: -1 <= parents[c] < c
  }

  /** Every child index lies after its parent and inside the arena. */
  predicate ChildrenAfter(js: seq<Joint>) {
    forall p, i | 0 <= p < |js| && 0 <= i < |js[p].children| :: p < js[p].children[i] < |js|
  }

  /** Every animation source is a joint of the arena. */
  predicate SourcesInRange(js: seq<Joint>) {
    forall j | 0 <= j < |js| :: js[j].animationSource.Some? ==> js[j].animationSource.value < |js|
  }

  /**
    The children lists and the parent record describe the same forest: a joint is in its
    parent's list, every listed child names that parent, and each list is strictly
    increasing (so no joint is listed twice).
   */
  ghost predicate Forest(js: seq<Joint>, parents: seq<int>) {
    && |parents| == |js|
    && ParentsBelow(parents)
    && ChildrenAfter(js)
    && (forall c | 0 <= c < |js| && 0 <= parents[c] :: c in js[parents[c]].children)
    && (forall p, i | 0 <= p < |js| && 0 <= i < |js[p].children| :: parents[js[p].children[i]] == p)
    && (forall p, i, k | 0 <= p < |js| && 0 <= i < k < |js[p].children| ::
          js[p].children[i] < js[p].children[k])
  }

  /** `a` is `d` or one of its ancestors. */
  ghost predicate IsDescendant(parents: seq<int>, d: nat, a: nat)
    requires d < |parents| && ParentsBelow(parents)
    decreases d
  {
    d == a || (parents[d] >= 0 && IsDescendant(parents, parents[d], a))
  }

  /** `d` lies in the subtree of one of `roots`. */
  ghost predicate Reached(parents: seq<int>, roots: seq<nat>, d: nat)
    requires d < |parents| && ParentsBelow(parents)
  {
    exists k | 0 <= k < |roots| :: IsDescendant(parents, d, roots[k])
  }

  /** `d` lies in the subtree of one of the first `k` children of `j`. */
  ghost predicate InChildSubtrees(js: seq<Joint>, parents: seq<int>, j: nat, k: nat, d: nat)
    requires d < |parents| && ParentsBelow(parents) && j < |js| && k <= |js[j].children|
  {
    exists i | 0 <= i < k :: IsDescendant(parents, d, js[j].children[i])
  }

  /** No element occurs twice. */
  predicate Distinct<T(==)>(s: seq<T>) {
    forall a, b | 0 <= a < b < |s| :: s[a] != s[b]
  }

  /** Two sequences without a common element, each without repeats, join without repeats. */
  lemma DistinctConcat<T>(a: seq<T>, b: seq<T>)
    requires Distinct(a) && Distinct(b)
    requires forall x | x in a :: x !in b
    ensures Distinct(a + b)
  {
    forall i, k | 0 <= i < k < |a + b|
      ensures (a + b)[i] != (a + b)[k]
    {
      if i < |a| <= k {
        assert (a + b)[i] in a && (a + b)[k] in b;
      }
    }
  }

  /** An ancestor never comes after its descendant in the arena. */
  lemma {:induction false} AncestorNotAfter(parents: seq<int>, d: nat, a: nat)
    requires d < |parents| && ParentsBelow(parents)
    requires IsDescendant(parents, d, a)
    ensures a <= d
    decreases d
  {
    if d != a {
      AncestorNotAfter(parents, parents[d], a);
    }
  }

  /** Descent is transitive. */
  lemma {:induction false} DescendantTransitive(parents: seq<int>, d: nat, m: nat, a: nat)
    requires d < |parents| && m < |parents| && ParentsBelow(parents)
    requires IsDescendant(parents, d, m) && IsDescendant(parents, m, a)
    ensures IsDescendant(parents, d, a)
    decreases d
  {
    if d != m {
      DescendantTransitive(parents, parents[d], m, a);
    }
  }

  /** Two ancestors of the same joint are one above the other. */
  lemma {:induction false} AncestorsComparable(parents: seq<int>, d: nat, a: nat, b: nat)
    requires d < |parents| && ParentsBelow(parents)
    requires IsDescendant(parents, d, a) && IsDescendant(parents, d, b)
    ensures a < |parents| && b < |parents|
    ensures IsDescendant(parents, a, b) || IsDescendant(parents, b, a)
    decreases d
  {
    AncestorNotAfter(parents, d, a);
    AncestorNotAfter(parents, d, b);
    if d != a && d != b {
      AncestorsComparable(parents, parents[d], a, b);
    }
  }

  /** The subtrees of two different children of one joint share no joint. */
  lemma SiblingSubtreesDisjoint(js: seq<Joint>, parents: seq<int>, p: nat, i: nat, k: nat, d: nat)
    requires Forest(js, parents) && p < |js| && d < |js|
    requires i < |js[p].children| && k < |js[p].children| && i != k
    ensures !(IsDescendant(parents, d, js[p].children[i]) && IsDescendant(parents, d, js[p].children[k]))
  {
    var a, b := js[p].children[i], js[p].children[k];
    assert a != b by {
      if i < k {
        assert a < b;
      } else {
        assert b < a;
      }
    }
    if IsDescendant(parents, d, a) && IsDescendant(parents, d, b) {
      AncestorsComparable(parents, d, a, b);
      if IsDescendant(parents, a, b) {
        AncestorNotAfter(parents, p, b);
      } else {
        AncestorNotAfter(parents, p, a);
      }
    }
  }

  /** The subtrees of two different parentless joints share no joint. */
  lemma RootSubtreesDisjoint(parents: seq<int>, r1: nat, r2: nat, d: nat)
    requires ParentsBelow(parents) && d < |parents| && r1 < |parents| && r2 < |parents|
    requires parents[r1] == -1 && parents[r2] == -1 && r1 != r2
    ensures !(IsDescendant(parents, d, r1) && IsDescendant(parents, d, r2))
  {
    if IsDescendant(parents, d, r1) && IsDescendant(parents, d, r2) {
      AncestorsComparable(parents, d, r1, r2);
    }
  }

  /**
    A joint's subtree is the joint itself plus the subtrees of its children: the shape of
    every recursive walk over the forest.
   */
  lemma {:induction false} SubtreeSplit(js: seq<Joint>, parents: seq<int>, j: nat, d: nat)
    requires Forest(js, parents) && j < |js| && d < |js|
    ensures IsDescendant(parents, d, j) <==> d == j || InChildSubtrees(js, parents, j, |js[j].children|, d)
    decreases d
  {
    var cs := js[j].children;
    if d != j && IsDescendant(parents, d, j) {
      var p := parents[d];
      if p == j {
        var i :| 0 <= i < |cs| && cs[i] == d;
        assert IsDescendant(parents, d, cs[i]);
      } else {
        SubtreeSplit(js, parents, j, p);
        var i :| 0 <= i < |cs| && IsDescendant(parents, p, cs[i]);
        assert IsDescendant(parents, d, cs[i]);
      }
    }
    if InChildSubtrees(js, parents, j, |cs|, d) {
      var i :| 0 <= i < |cs| && IsDescendant(parents, d, cs[i]);
      assert IsDescendant(parents, cs[i], j);
      DescendantTransitive(parents, d, cs[i], j);
    }
  }

  /** When every parentless joint is a root, every joint is reached from the roots. */
  lemma {:induction false} AllReached(parents: seq<int>, roots: seq<nat>, d: nat)
    requires ParentsBelow(parents) && d < |parents|
    requires forall j | 0 <= j < |parents| && parents[j] < 0 :: j in roots
    ensures Reached(parents, roots, d)
    decreases d
  {
    if parents[d] < 0 {
      var k :| 0 <= k < |roots| && roots[k] == d;
      assert IsDescendant(parents, d, roots[k]);
    } else {
      AllReached(parents, roots, parents[d]);
      var k :| 0 <= k < |roots| && IsDescendant(parents, parents[d], roots[k]);
      assert IsDescendant(parents, d, roots[k]);
    }
  }

  // ---------------------------------------------------------------- global matrices

  /** The two joint sequences have the same forest and the same local matrices. */
  ghost predicate SameLocals(a: seq<Joint>, b: seq<Joint>) {
    |a| == |b| && forall j | 0 <= j < |a| :: a[j].local == b[j].local
  }

  /** The two joint sequences agree on what animated globals are built from. */
  ghost predicate SameAnimatedLocals(a: seq<Joint>, b: seq<Joint>) {
    |a| == |b| && forall j | 0 <= j < |a| ::
      a[j].localAnimated == b[j].localAnimated && a[j].globalSkinningSpace == b[j].globalSkinningSpace
  }

  /**
    The bind-pose global matrix: the local matrix of a parentless joint, otherwise the
    parent's global matrix times the local matrix.
   */
  ghost function BindGlobal(js: seq<Joint>, parents: seq<int>, alg: Algebra, d: nat): Matrix
    requires |parents| == |js| && ParentsBelow(parents) && d < |js|
    decreases d
  {
    if parents[d] < 0 then js[d].local
    else alg.mul(BindGlobal(js, parents, alg, parents[d]), js[d].local)
  }

  /**
    The animated global matrix: the animated local matrix for a parentless joint or one
    in global skinning space, otherwise the parent's animated global times it.
   */
  ghost function AnimGlobal(js: seq<Joint>, parents: seq<int>, alg: Algebra, d: nat): Matrix
    requires |parents| == |js| && ParentsBelow(parents) && d < |js|
    decreases d
  {
    if parents[d] < 0 || js[d].globalSkinningSpace then js[d].localAnimated
    else alg.mul(AnimGlobal(js, parents, alg, parents[d]), js[d].localAnimated)
  }

  /** Bind globals depend on the local matrices alone. */
  lemma {:induction false} BindGlobalDependsOnLocals(a: seq<Joint>, b: seq<Joint>, parents: seq<int>,
                                                     alg: Algebra, d: nat)
    requires |parents| == |a| && ParentsBelow(parents) && d < |a| && SameLocals(a, b)
    ensures BindGlobal(a, parents, alg, d) == BindGlobal(b, parents, alg, d)
    decreases d
  {
    if parents[d] >= 0 {
      BindGlobalDependsOnLocals(a, b, parents, alg, parents[d]);
    }
  }

  /** Animated globals depend on the animated locals and skinning-space flags alone. */
  lemma {:induction false} AnimGlobalDependsOnLocals(a: seq<Joint>, b: seq<Joint>, parents: seq<int>,
                                                     alg: Algebra, d: nat)
    requires |parents| == |a| && ParentsBelow(parents) && d < |a| && SameAnimatedLocals(a, b)
    ensures AnimGlobal(a, parents, alg, d) == AnimGlobal(b, parents, alg, d)
    decreases d
  {
    if parents[d] >= 0 && !a[d].globalSkinningSpace {
      AnimGlobalDependsOnLocals(a, b, parents, alg, parents[d]);
    }
  }

  /**
    What `calculateGlobalMatrices` does to one joint given its global matrix `g`: the
    animated matrices are reset to the bind pose, and the inverse is taken only when the
    stored inverse is the identity (a loader may have supplied it).
   */
  function BindPosed(jt: Joint, g: Matrix, alg: Algebra): Joint {
    jt.(global := g, localAnimated := jt.local, globalAnimated := g,
        globalInversed := if alg.isIdentity(jt.globalInversed) then alg.inverse(g) else jt.globalInversed)
  }

  /** Every joint in the subtrees of `roots` bind-posed, the others as they were. */
  ghost function BindAll(js: seq<Joint>, parents: seq<int>, alg: Algebra, roots: seq<nat>): (r: seq<Joint>)
    requires |parents| == |js| && ParentsBelow(parents)
    ensures |r| == |js|
  {
    seq(|js|, d requires 0 <= d < |js| =>
      if Reached(parents, roots, d) then BindPosed(js[d], BindGlobal(js, parents, alg, d), alg) else js[d])
  }

  /** Every joint in the subtrees of `roots` with its animated global matrix rebuilt. */
  ghost function AnimateAll(js: seq<Joint>, parents: seq<int>, alg: Algebra, roots: seq<nat>): (r: seq<Joint>)
    requires |parents| == |js| && ParentsBelow(parents)
    ensures SameShape(js, r)
  {
    seq(|js|, d requires 0 <= d < |js| =>
      if Reached(parents, roots, d) then js[d].(globalAnimated := AnimGlobal(js, parents, alg, d)) else js[d])
  }

  /**
    After the bind pass, a reached joint's global matrix is its local matrix or its
    parent's global times its local, its animated matrices equal the bind pose, and the
    inverse was recomputed only where the stored one was the identity; the rest of the
    arena is untouched.
   */
  lemma BindAllMeaning(js: seq<Joint>, parents: seq<int>, alg: Algebra, roots: seq<nat>, d: nat)
    requires Forest(js, parents) && d < |js|
    requires forall k | 0 <= k < |roots| :: roots[k] < |js| && parents[roots[k]] == -1
    ensures var r := BindAll(js, parents, alg, roots);
            if Reached(parents, roots, d) then
              && r[d].global == (if parents[d] < 0 then js[d].local
                                 else alg.mul(r[parents[d]].global, js[d].local))
              && r[d].localAnimated == js[d].local
              && r[d].globalAnimated == r[d].global
              && r[d].globalInversed == (if alg.isIdentity(js[d].globalInversed)
                                         then alg.inverse(r[d].global) else js[d].globalInversed)
              && r[d].children == js[d].children && r[d].weights == js[d].weights
            else r[d] == js[d]
  {
    if Reached(parents, roots, d) && parents[d] >= 0 {
      var k :| 0 <= k < |roots| && IsDescendant(parents, d, roots[k]);
      assert d != roots[k];
      assert IsDescendant(parents, parents[d], roots[k]);
    }
  }

  /**
    After the animated pass, a reached joint's animated global is its animated local for
    a parentless or global-skinning-space joint, else its parent's animated global times
    its animated local.
   */
  lemma AnimateAllMeaning(js: seq<Joint>, parents: seq<int>, alg: Algebra, roots: seq<nat>, d: nat)
    requires Forest(js, parents) && d < |js|
    requires forall k | 0 <= k < |roots| :: roots[k] < |js| && parents[roots[k]] == -1
    ensures var r := AnimateAll(js, parents, alg, roots);
            if Reached(parents, roots, d) then
              r[d] == js[d].(globalAnimated := r[d].globalAnimated)
              && r[d].globalAnimated == (if parents[d] < 0 || js[d].globalSkinningSpace then js[d].localAnimated
                                         else alg.mul(r[parents[d]].globalAnimated, js[d].localAnimated))
            else r[d] == js[d]
  {
    if Reached(parents, roots, d) && parents[d] >= 0 {
      var k :| 0 <= k < |roots| && IsDescendant(parents, d, roots[k]);
      assert d != roots[k];
      assert IsDescendant(parents, parents[d], roots[k]);
    }
  }

  // ---------------------------------------------------------------- preorder walks

  /**
    The weighted joints of the subtree of `j` in the order `skinJoint` and
    `computeWeightInfluence` visit them: the joint first, then each child's subtree.
   */
  function Walk(js: seq<Joint>, j: nat): (order: seq<nat>)
    requires j < |js| && ChildrenAfter(js)
    ensures forall i | 0 <= i < |order| :: j <= order[i] < |js| && |js[order[i]].weights| > 0
    decreases |js| - j, 1
  {
    Own(js, j) + WalkChildren(js, j, |js[j].children|)
  }

  /** The walks of the first `k` children of `j`, one after the other. */
  function WalkChildren(js: seq<Joint>, j: nat, k: nat): (order: seq<nat>)
    requires j < |js| && ChildrenAfter(js) && k <= |js[j].children|
    ensures forall i | 0 <= i < |order| :: j < order[i] < |js| && |js[order[i]].weights| > 0
    decreases |js| - j, 0, k
  {
    if k == 0 then []
    else WalkChildren(js, j, k - 1) + Walk(js, js[j].children[k - 1])
  }

  /** The walks of the first `k` roots, one after the other. */
  function WalkRoots(js: seq<Joint>, roots: seq<nat>, k: nat): (order: seq<nat>)
    requires ChildrenAfter(js) && k <= |roots| && forall i | 0 <= i < |roots| :: roots[i] < |js|
    ensures forall i | 0 <= i < |order| :: order[i] < |js| && |js[order[i]].weights| > 0
  {
    if k == 0 then []
    else WalkRoots(js, roots, k - 1) + Walk(js, roots[k - 1])
  }

  /** The order of all skinning indices: the walks from every root. */
  function SkinOrder(js: seq<Joint>, roots: seq<nat>): seq<nat>
    requires ChildrenAfter(js) && forall i | 0 <= i < |roots| :: roots[i] < |js|
  {
    WalkRoots(js, roots, |roots|)
  }

  /** The two joint sequences have the same children and the same weights everywhere. */
  predicate SameShape(a: seq<Joint>, b: seq<Joint>) {
    |a| == |b| && forall j | 0 <= j < |a| :: a[j].children == b[j].children && a[j].weights == b[j].weights
  }

  lemma ShapeKeepsChildrenAfter(a: seq<Joint>, b: seq<Joint>)
    requires ChildrenAfter(a) && SameShape(a, b)
    ensures ChildrenAfter(b)
  {
    forall p, i | 0 <= p < |b| && 0 <= i < |b[p].children|
      ensures p < b[p].children[i] < |b|
    {
      assert b[p].children[i] == a[p].children[i];
    }
  }

  /** The walk depends only on the children lists and on which joints carry weights. */
  lemma {:induction false} WalkDependsOnShape(a: seq<Joint>, b: seq<Joint>, j: nat)
    requires j < |a| && ChildrenAfter(a) && SameShape(a, b)
    ensures ChildrenAfter(b) && Walk(a, j) == Walk(b, j)
    decreases |a| - j, 1
  {
    WalkChildrenDependsOnShape(a, b, j, |a[j].children|);
  }

  lemma {:induction false} WalkChildrenDependsOnShape(a: seq<Joint>, b: seq<Joint>, j: nat, k: nat)
    requires j < |a| && ChildrenAfter(a) && SameShape(a, b) && k <= |a[j].children|
    ensures ChildrenAfter(b) && WalkChildren(a, j, k) == WalkChildren(b, j, k)
    decreases |a| - j, 0, k
  {
    ShapeKeepsChildrenAfter(a, b);
    if k > 0 {
      WalkChildrenDependsOnShape(a, b, j, k - 1);
      WalkDependsOnShape(a, b, a[j].children[k - 1]);
    }
  }

  lemma {:induction false} WalkRootsDependsOnShape(a: seq<Joint>, b: seq<Joint>, roots: seq<nat>, k: nat)
    requires ChildrenAfter(a) && SameShape(a, b) && k <= |roots|
    requires forall i | 0 <= i < |roots| :: roots[i] < |a|
    ensures ChildrenAfter(b) && WalkRoots(a, roots, k) == WalkRoots(b, roots, k)
  {
    ShapeKeepsChildrenAfter(a, b);
    if k > 0 {
      WalkRootsDependsOnShape(a, b, roots, k - 1);
      WalkDependsOnShape(a, b, roots[k - 1]);
    }
  }

  /**
    A walk lists exactly the weighted joints of the subtree: in a forest, `d` appears in
    `Walk(js, j)` exactly when it carries weights and descends from `j`.
   */
  lemma {:induction false} WalkMembers(js: seq<Joint>, parents: seq<int>, j: nat)
    requires Forest(js, parents) && j < |js|
    ensures forall d | 0 <= d < |js| ::
              d in Walk(js, j) <==> |js[d].weights| > 0 && IsDescendant(parents, d, j)
    decreases |js| - j, 1
  {
    var cs := js[j].children;
    WalkChildrenMembers(js, parents, j, |cs|);
    forall d | 0 <= d < |js|
      ensures d in Walk(js, j) <==> |js[d].weights| > 0 && IsDescendant(parents, d, j)
    {
      SubtreeSplit(js, parents, j, d);
      assert j !in WalkChildren(js, j, |cs|);
    }
  }

  lemma {:induction false} WalkChildrenMembers(js: seq<Joint>, parents: seq<int>, j: nat, k: nat)
    requires Forest(js, parents) && j < |js| && k <= |js[j].children|
    ensures forall d | 0 <= d < |js| ::
              d in WalkChildren(js, j, k) <==> |js[d].weights| > 0 && InChildSubtrees(js, parents, j, k, d)
    decreases |js| - j, 0, k
  {
    if k > 0 {
      var c := js[j].children[k - 1];
      var front, back := WalkChildren(js, j, k - 1), Walk(js, c);
      assert WalkChildren(js, j, k) == front + back;
      WalkChildrenMembers(js, parents, j, k - 1);
      WalkMembers(js, parents, c);
      forall d | 0 <= d < |js|
        ensures d in front + back <==> |js[d].weights| > 0 && InChildSubtrees(js, parents, j, k, d)
      {
        assert d in front + back <==> d in front || d in back;
        InChildSubtreesStep(js, parents, j, k, d);
      }
    }
  }

  /** The subtrees of the first `k` children are those of the first k - 1 and that of child k - 1. */
  lemma InChildSubtreesStep(js: seq<Joint>, parents: seq<int>, j: nat, k: nat, d: nat)
    requires d < |parents| && ParentsBelow(parents) && j < |js| && 0 < k <= |js[j].children|
    ensures InChildSubtrees(js, parents, j, k, d)
        <==> InChildSubtrees(js, parents, j, k - 1, d) || IsDescendant(parents, d, js[j].children[k - 1])
  {
    if InChildSubtrees(js, parents, j, k, d) {
      var i :| 0 <= i < k && IsDescendant(parents, d, js[j].children[i]);
      if i < k - 1 {
        assert InChildSubtrees(js, parents, j, k - 1, d);
      }
    }
    if InChildSubtrees(js, parents, j, k - 1, d) {
      var i :| 0 <= i < k - 1 && IsDescendant(parents, d, js[j].children[i]);
      assert InChildSubtrees(js, parents, j, k, d);
    }
    if IsDescendant(parents, d, js[j].children[k - 1]) {
      assert InChildSubtrees(js, parents, j, k, d);
    }
  }

  /** A walk lists no joint twice: sibling subtrees are disjoint. */
  lemma {:induction false} WalkDistinct(js: seq<Joint>, parents: seq<int>, j: nat)
    requires Forest(js, parents) && j < |js|
    ensures Distinct(Walk(js, j))
    decreases |js| - j, 1
  {
    var rest := WalkChildren(js, j, |js[j].children|);
    WalkChildrenDistinct(js, parents, j, |js[j].children|);
    DistinctConcat(if |js[j].weights| > 0 then [j] else [], rest);
  }

  lemma {:induction false} WalkChildrenDistinct(js: seq<Joint>, parents: seq<int>, j: nat, k: nat)
    requires Forest(js, parents) && j < |js| && k <= |js[j].children|
    ensures Distinct(WalkChildren(js, j, k))
    decreases |js| - j, 0, k
  {
    if k > 0 {
      var c := js[j].children[k - 1];
      var front, back := WalkChildren(js, j, k - 1), Walk(js, c);
      WalkChildrenDistinct(js, parents, j, k - 1);
      WalkDistinct(js, parents, c);
      forall x | x in front
        ensures x !in back
      {
        WalkChildrenAvoids(js, parents, j, k - 1, x);
      }
      DistinctConcat(front, back);
    }
  }

  /** A joint walked under the first `k` children of `j` is not walked under the next one. */
  lemma WalkChildrenAvoids(js: seq<Joint>, parents: seq<int>, j: nat, k: nat, x: nat)
    requires Forest(js, parents) && j < |js| && k < |js[j].children|
    requires x in WalkChildren(js, j, k)
    ensures x !in Walk(js, js[j].children[k])
  {
    WalkChildrenMembers(js, parents, j, k);
    WalkMembers(js, parents, js[j].children[k]);
    var i :| 0 <= i < k && IsDescendant(parents, x, js[j].children[i]);
    SiblingSubtreesDisjoint(js, parents, j, i, k, x);
  }

  /** The skinning matrices of the listed joints, in list order. */
  function SkinMatrices(js: seq<Joint>, alg: Algebra, order: seq<nat>): (ms: seq<Matrix>)
    requires forall i | 0 <= i < |order| :: order[i] < |js|
    ensures |ms| == |order|
  {
    seq(|order|, k requires 0 <= k < |order| => SkinMatrix(js[order[k]], alg))
  }

  /** A weighted joint's skinning matrix: GlobalAnimatedMatrix * GlobalInversedMatrix. */
  function SkinMatrix(joint: Joint, alg: Algebra): Matrix {
    alg.mul(joint.globalAnimated, joint.globalInversed)
  }

  /** One skinning matrix per listed joint: the k-th is GlobalAnimated times GlobalInversed of the k-th joint. */
  lemma SkinMatricesMeaning(js: seq<Joint>, alg: Algebra, order: seq<nat>)
    requires forall i | 0 <= i < |order| :: order[i] < |js|
    ensures forall k | 0 <= k < |order| ::
              SkinMatrices(js, alg, order)[k] == alg.mul(js[order[k]].globalAnimated, js[order[k]].globalInversed)
  {
  }

  /** The matrices of two walks one after the other are the matrices of the joined walk. */
  lemma SkinMatricesConcat(js: seq<Joint>, alg: Algebra, a: seq<nat>, b: seq<nat>)
    requires forall i | 0 <= i < |a| :: a[i] < |js|
    requires forall i | 0 <= i < |b| :: b[i] < |js|
    ensures SkinMatrices(js, alg, a + b) == SkinMatrices(js, alg, a) + SkinMatrices(js, alg, b)
  {
    var l, r := SkinMatrices(js, alg, a + b), SkinMatrices(js, alg, a) + SkinMatrices(js, alg, b);
    SkinMatricesMeaning(js, alg, a + b);
    SkinMatricesMeaning(js, alg, a);
    SkinMatricesMeaning(js, alg, b);
    forall i | 0 <= i < |l|
      ensures l[i] == r[i]
    {
      if i >= |a| {
        assert (a + b)[i] == b[i - |a|];
      }
    }
  }

  lemma ConcatAssoc<T>(a: seq<T>, b: seq<T>, c: seq<T>)
    ensures (a + b) + c == a + (b + c)
  {
  }

  /** The weighted joint itself, if it carries weights: the head of its walk. */
  function Own(js: seq<Joint>, j: nat): (order: seq<nat>)
    requires j < |js|
    ensures forall i | 0 <= i < |order| :: order[i] == j && |js[j].weights| > 0
  {
    if |js[j].weights| > 0 then [j] else []
  }

  /** One more child's walk: the walks of the first k + 1 children, and their matrices. */
  lemma SkinChildStep(js: seq<Joint>, alg: Algebra, j: nat, k: nat)
    requires ChildrenAfter(js) && j < |js| && k < |js[j].children|
    ensures SkinMatrices(js, alg, WalkChildren(js, j, k + 1))
         == SkinMatrices(js, alg, WalkChildren(js, j, k)) + SkinMatrices(js, alg, Walk(js, js[j].children[k]))
  {
    SkinMatricesConcat(js, alg, WalkChildren(js, j, k), Walk(js, js[j].children[k]));
  }

  /** Skinning from one more root appends that root's subtree of matrices. */
  lemma SkinRootStep(js: seq<Joint>, alg: Algebra, roots: seq<nat>, k: nat)
    requires ChildrenAfter(js) && k < |roots| && forall i | 0 <= i < |roots| :: roots[i] < |js|
    ensures SkinMatrices(js, alg, WalkRoots(js, roots, k + 1))
         == SkinMatrices(js, alg, WalkRoots(js, roots, k)) + SkinMatrices(js, alg, Walk(js, roots[k]))
  {
    SkinMatricesConcat(js, alg, WalkRoots(js, roots, k), Walk(js, roots[k]));
  }

  /** A walk is the joint itself, if weighted, then its children's walks; so are its matrices. */
  lemma SkinWalkSplit(js: seq<Joint>, alg: Algebra, j: nat)
    requires ChildrenAfter(js) && j < |js|
    ensures Walk(js, j) == Own(js, j) + WalkChildren(js, j, |js[j].children|)
    ensures SkinMatrices(js, alg, Walk(js, j))
         == SkinMatrices(js, alg, Own(js, j)) + SkinMatrices(js, alg, WalkChildren(js, j, |js[j].children|))
  {
    SkinMatricesConcat(js, alg, Own(js, j), WalkChildren(js, j, |js[j].children|));
  }

  /** Emitting a joint's own matrix when it has weights appends the matrices of `Own`. */
  lemma SkinOwn(js: seq<Joint>, alg: Algebra, j: nat, matrices: seq<Matrix>, r: seq<Matrix>)
    requires j < |js|
    requires r == if |js[j].weights| > 0 then matrices + [SkinMatrix(js[j], alg)] else matrices
    ensures r == matrices + SkinMatrices(js, alg, Own(js, j))
  {
    if |js[j].weights| == 0 {
      assert SkinMatrices(js, alg, Own(js, j)) == [];
    }
  }

  /** After the first `k` children of `j`, the matrices appended since `start` are those of their walks. */
  predicate SkinnedChildren(js: seq<Joint>, alg: Algebra, j: nat, k: nat, start: seq<Matrix>, r: seq<Matrix>)
    requires ChildrenAfter(js) && j < |js| && k <= |js[j].children|
  {
    r == start + SkinMatrices(js, alg, WalkChildren(js, j, k))
  }

  /** Before the first child nothing has been appended. */
  lemma SkinChildrenStart(js: seq<Joint>, alg: Algebra, j: nat, start: seq<Matrix>)
    requires ChildrenAfter(js) && j < |js|
    ensures SkinnedChildren(js, alg, j, 0, start, start)
  {
    assert SkinMatrices(js, alg, WalkChildren(js, j, 0)) == [];
  }

  /** Skinning child `k` appends the matrices of its walk, after those of the earlier children. */
  lemma SkinChildAppend(js: seq<Joint>, alg: Algebra, j: nat, k: nat, start: seq<Matrix>,
                        before: seq<Matrix>, after: seq<Matrix>)
    requires ChildrenAfter(js) && j < |js| && k < |js[j].children|
    requires SkinnedChildren(js, alg, j, k, start, before)
    requires after == before + SkinMatrices(js, alg, Walk(js, js[j].children[k]))
    ensures SkinnedChildren(js, alg, j, k + 1, start, after)
  {
    SkinChildStep(js, alg, j, k);
    ConcatAssoc(start, SkinMatrices(js, alg, WalkChildren(js, j, k)), SkinMatrices(js, alg, Walk(js, js[j].children[k])));
  }

  /** The own matrix followed by every child's subtree is the matrices of the joint's walk. */
  lemma SkinJointEnd(js: seq<Joint>, alg: Algebra, j: nat, matrices: seq<Matrix>, start: seq<Matrix>, r: seq<Matrix>)
    requires ChildrenAfter(js) && j < |js|
    requires start == matrices + SkinMatrices(js, alg, Own(js, j))
    requires SkinnedChildren(js, alg, j, |js[j].children|, start, r)
    ensures r == matrices + SkinMatrices(js, alg, Walk(js, j))
  {
    SkinWalkSplit(js, alg, j);
    ConcatAssoc(matrices, SkinMatrices(js, alg, Own(js, j)), SkinMatrices(js, alg, WalkChildren(js, j, |js[j].children|)));
  }

  // ---------------------------------------------------------------- local animated matrices

  function Component(v: V.Vec3, c: nat): real {
    if c == 0 then v.x else if c == 1 then v.y else v.z
  }

  /**
    The translation fold: for each row r and column c < 3, element 4r+c gains
    position[c] times element 4r+3.
   */
  function Translated(m: Matrix, p: V.Vec3): Matrix {
    seq(16, i requires 0 <= i < 16 =>
      if i % 4 == 3 then m[i] else m[i] + Component(p, i % 4) * m[i - i % 4 + 3])
  }

  /** The scale fold: elements 4r .. 4r+3 of rows r < 3 are multiplied by scale[r]. */
  function Scaled(m: Matrix, s: V.Vec3): Matrix {
    seq(16, i requires 0 <= i < 16 => if i < 12 then m[i] * Component(s, i / 4) else m[i])
  }

  /**
    The local animated matrix of an animated joint: the transposed rotation matrix of the
    animated rotation, then the translation fold, then (when the joint has scale keys of
    its own) the scale fold.
   */
  function PoseMatrix(pose: Pose, scaled: bool): Matrix {
    Fold(Q.TransposedMatrixOf(pose.rotation), pose.position, pose.scale, scaled)
  }

  /**
    The translation fold on a matrix whose last column is (0, 0, 0, 1): the translation
    becomes the position, the rest is unchanged.
   */
  lemma TranslatedShape(m: Matrix, p: V.Vec3)
    requires m[3] == 0.0 && m[7] == 0.0 && m[11] == 0.0 && m[15] == 1.0
    requires m[12] == 0.0 && m[13] == 0.0 && m[14] == 0.0
    ensures var t := Translated(m, p);
            && t[12] == p.x && t[13] == p.y && t[14] == p.z
            && (forall i | 0 <= i < 12 :: t[i] == m[i]) && t[15] == 1.0
  {
    var t := Translated(m, p);
    forall i | 0 <= i < 12
      ensures t[i] == m[i]
    {
      if i % 4 != 3 {
        assert i - i % 4 + 3 in {3, 7, 11};
      }
    }
  }

  /**
    Because the transposed rotation matrix has zeros in its last column and a one in its
    corner, the pose matrix holds the animated position in elements 12..14, keeps 3, 7,
    11 zero and 15 one, and holds the rotation block with its rows scaled (or not).
   */
  lemma PoseMatrixShape(pose: Pose, scaled: bool)
    ensures var m := PoseMatrix(pose, scaled);
            && m[12] == pose.position.x && m[13] == pose.position.y && m[14] == pose.position.z
            && m[3] == 0.0 && m[7] == 0.0 && m[11] == 0.0 && m[15] == 1.0
  {
    var t := Q.TransposedMatrixOf(pose.rotation);
    Q.TransposedMatrixCorner(pose.rotation);
    assert PoseMatrix(pose, scaled) == Fold(t, pose.position, pose.scale, scaled);
    FoldShape(t, pose.position, pose.scale, scaled);
  }

  /** The translation fold, then the scale fold when `scaled`. */
  function Fold(t: Matrix, p: V.Vec3, s: V.Vec3, scaled: bool): Matrix {
    if scaled then Scaled(Translated(t, p), s) else Translated(t, p)
  }

  /**
    On a matrix with an empty translation and last column (0, 0, 0, 1), the folds put the
    position into the translation, keep the last column, and scale the rows of the
    rotation block (or not).
   */
  lemma FoldShape(t: Matrix, p: V.Vec3, s: V.Vec3, scaled: bool)
    requires t[3] == 0.0 && t[7] == 0.0 && t[11] == 0.0 && t[15] == 1.0
    requires t[12] == 0.0 && t[13] == 0.0 && t[14] == 0.0
    ensures var m := Fold(t, p, s, scaled);
            && m[12] == p.x && m[13] == p.y && m[14] == p.z
            && m[3] == 0.0 && m[7] == 0.0 && m[11] == 0.0 && m[15] == 1.0
            && (forall i | 0 <= i < 12 && i % 4 != 3 ::
                  m[i] == t[i] * (if scaled then Component(s, i / 4) else 1.0))
  {
    TranslatedShape(t, p);
  }

  /** The animated joint's source carries at least one key. */
  predicate SourceHasKeys(js: seq<Joint>, j: nat)
    requires j < |js| && SourcesInRange(js)
  {
    js[j].animationSource.Some? && HasKeys(js[js[j].animationSource.value].keys)
  }

  /**
    What `buildAllLocalAnimatedMatrices` does to one joint: when its animation source has
    keys, the joint leaves global skinning space and gets the pose matrix (scaled only if
    the joint itself has scale keys); otherwise its local animated matrix is reset to its
    local matrix.
   */
  function BuildLocal(js: seq<Joint>, j: nat): Joint
    requires j < |js| && SourcesInRange(js)
  {
    if SourceHasKeys(js, j) then
      js[j].(globalSkinningSpace := false, localAnimated := PoseMatrix(js[j].pose, |js[j].keys.scale| > 0))
    else js[j].(localAnimated := js[j].local)
  }

  /** The two joint sequences carry the same keys and sources everywhere. */
  predicate SameAnimation(a: seq<Joint>, b: seq<Joint>) {
    |a| == |b| && forall j | 0 <= j < |a| :: a[j].keys == b[j].keys && a[j].animationSource == b[j].animationSource
  }

  // ---------------------------------------------------------------- posing

  /**
    The per-frame pose update of `animateMesh`: with blend 1 the sampled pose replaces the
    old one; otherwise positions and scales are mixed linearly and rotations slerped.
   */
  function Blend(previous: Pose, sampled: Pose, blend: real, trig: Q.SlerpWeights): Pose {
    if blend == 1.0 then sampled
    else Pose(V.Add(V.Scale(previous.position, 1.0 - blend), V.Scale(sampled.position, blend)),
              V.Add(V.Scale(previous.scale, 1.0 - blend), V.Scale(sampled.scale, blend)),
              Q.SlerpOf(previous.rotation, sampled.rotation, blend, Q.DefaultSlerpThreshold, trig))
  }

  /**
    `getFrameData` for joint `j` starting from `pose` and `hints`: sample the tracks of its
    animation source, or change nothing when it has none.
   */
  function JointFrameData(js: seq<Joint>, j: nat, frame: real, pose: Pose, hints: Hints,
                          trig: Q.SlerpWeights): (Pose, Hints)
    requires j < |js| && SourcesInRange(js)
  {
    match js[j].animationSource
    case None => (pose, hints)
    case Some(s) => FrameData(js[s].keys, frame, pose, hints, trig)
  }

  /** What `animateMesh` does to joint `j`: a sampled, blended pose and the advanced hints. */
  function AnimateJoint(js: seq<Joint>, j: nat, frame: real, blend: real, trig: Q.SlerpWeights): Joint
    requires j < |js| && SourcesInRange(js)
  {
    var (sampled, hints) := JointFrameData(js, j, frame, js[j].pose, js[j].hints, trig);
    js[j].(pose := Blend(js[j].pose, sampled, blend, trig), hints := hints)
  }

  /** A blend factor of 1 replaces the pose outright; a blend of 0 would keep it. */
  lemma BlendEnds(previous: Pose, sampled: Pose, trig: Q.SlerpWeights)
    ensures Blend(previous, sampled, 1.0, trig) == sampled
    ensures Blend(previous, sampled, 0.0, trig).position == previous.position
    ensures Blend(previous, sampled, 0.0, trig).scale == previous.scale
  {
  }

  /** A joint without a source keeps its pose and hints under any sampling. */
  lemma NoSourceKeepsPose(js: seq<Joint>, j: nat, frame: real, pose: Pose, hints: Hints, trig: Q.SlerpWeights)
    requires j < |js| && SourcesInRange(js) && js[j].animationSource.None?
    ensures JointFrameData(js, j, frame, pose, hints, trig) == (pose, hints)
  {
  }

  // ---------------------------------------------------------------- whole-arena updates

  /** Every listed index lies in the arena. */
  predicate InArena(js: seq<Joint>, s: seq<nat>) {
    forall k | 0 <= k < |s| :: s[k] < |js|
  }

  /**
    The invariant of the mesh's joint bookkeeping: the arena is a forest, sources point
    into it, AllJoints and RootJoints list arena joints without repeats, every root is
    parentless, and until roots exist AllJoints is the whole arena in order.
   */
  ghost predicate Wellformed(js: seq<Joint>, parents: seq<int>, all: seq<nat>, roots: seq<nat>) {
    && Forest(js, parents)
    && SourcesInRange(js)
    && InArena(js, all) && Distinct(all)
    && InArena(js, roots) && Distinct(roots)
    && (forall k | 0 <= k < |roots| :: parents[roots[k]] == -1)
    && (roots == [] ==> |all| == |js| && forall k | 0 <= k < |all| :: all[k] == k)
  }

  /** The two joint sequences have the same children lists and animation sources. */
  predicate SameLinks(a: seq<Joint>, b: seq<Joint>) {
    |a| == |b| && forall j | 0 <= j < |a| ::
      a[j].children == b[j].children && a[j].animationSource == b[j].animationSource
  }

  /** The two joint sequences have the same children lists. */
  predicate SameChildren(a: seq<Joint>, b: seq<Joint>) {
    |a| == |b| && forall j | 0 <= j < |a| :: a[j].children == b[j].children
  }

  /** The forest depends on the children lists alone. */
  lemma ForestKeptBy(a: seq<Joint>, b: seq<Joint>, parents: seq<int>)
    requires Forest(a, parents) && SameChildren(a, b)
    ensures Forest(b, parents)
  {
    forall c | 0 <= c < |b| && 0 <= parents[c]
      ensures c in b[parents[c]].children
    {
      assert a[parents[c]].children == b[parents[c]].children;
    }
    forall p, i | 0 <= p < |b| && 0 <= i < |b[p].children|
      ensures p < b[p].children[i] < |b| && parents[b[p].children[i]] == p
    {
      assert b[p].children[i] == a[p].children[i];
    }
    forall p, i, k | 0 <= p < |b| && 0 <= i < k < |b[p].children|
      ensures b[p].children[i] < b[p].children[k]
    {
      assert b[p].children == a[p].children;
    }
  }

  /** Changing anything but the children, with sources kept in the arena, keeps the bookkeeping well formed. */
  lemma WellformedNewSources(a: seq<Joint>, b: seq<Joint>, parents: seq<int>, all: seq<nat>, roots: seq<nat>)
    requires Wellformed(a, parents, all, roots) && SameChildren(a, b) && SourcesInRange(b)
    ensures Wellformed(b, parents, all, roots)
  {
    ForestKeptBy(a, b, parents);
  }

  /** Changing anything but children and sources keeps the bookkeeping well formed. */
  lemma WellformedKeptBy(a: seq<Joint>, b: seq<Joint>, parents: seq<int>, all: seq<nat>, roots: seq<nat>)
    requires Wellformed(a, parents, all, roots) && SameLinks(a, b)
    ensures Wellformed(b, parents, all, roots)
  {
    forall j | 0 <= j < |b| && b[j].animationSource.Some?
      ensures b[j].animationSource.value < |b|
    {
      assert a[j].animationSource == b[j].animationSource;
    }
    WellformedNewSources(a, b, parents, all, roots);
  }

  /** `hasParent`: some joint of `all` lists `j` among its children. */
  predicate HasParentIn(js: seq<Joint>, all: seq<nat>, j: nat)
    requires InArena(js, all)
  {
    exists k, i | 0 <= k < |all| && 0 <= i < |js[all[k]].children| :: js[all[k]].children[i] == j
  }

  /** When AllJoints is the whole arena, `hasParent` tells exactly whether the joint has a parent. */
  lemma HasParentInMeaning(js: seq<Joint>, parents: seq<int>, all: seq<nat>, j: nat)
    requires Forest(js, parents) && j < |js|
    requires |all| == |js| && forall k | 0 <= k < |all| :: all[k] == k
    ensures HasParentIn(js, all, j) <==> parents[j] >= 0
  {
    if parents[j] >= 0 {
      var p := parents[j];
      var i :| 0 <= i < |js[p].children| && js[p].children[i] == j;
      assert all[p] == p;
    }
  }

  /** The root derivation of `finalize`: the joints of `all[..n]` without a parent, in order. */
  function RootsAmong(js: seq<Joint>, all: seq<nat>, n: nat): (r: seq<nat>)
    requires InArena(js, all) && n <= |all|
    ensures forall k | 0 <= k < |r| :: r[k] in all[..n] && !HasParentIn(js, all, r[k])
  {
    if n == 0 then []
    else
      var j := all[n - 1];
      var front := RootsAmong(js, all, n - 1);
      assert all[..n] == all[..n - 1] + [j];
      if HasParentIn(js, all, j) then front else front + [j]
  }

  /**
    Deriving roots from the whole arena picks exactly the parentless joints, in arena
    order, each once.
   */
  lemma RootsAmongArena(js: seq<Joint>, parents: seq<int>, all: seq<nat>, n: nat)
    requires Forest(js, parents) && n <= |js|
    requires |all| == |js| && forall k | 0 <= k < |all| :: all[k] == k
    ensures var r := RootsAmong(js, all, n);
            && (forall k | 0 <= k < |r| :: r[k] < n && parents[r[k]] == -1)
            && (forall d | 0 <= d < n && parents[d] == -1 :: d in r)
            && Distinct(r)
  {
    RootsAmongBelow(js, parents, all, n);
    RootsAmongComplete(js, parents, all, n);
    RootsAmongDistinct(js, parents, all, n);
  }

  /** Every root derived from the first `n` joints of the arena is one of them and has no parent. */
  lemma {:induction false} RootsAmongBelow(js: seq<Joint>, parents: seq<int>, all: seq<nat>, n: nat)
    requires Forest(js, parents) && n <= |js|
    requires |all| == |js| && forall k | 0 <= k < |all| :: all[k] == k
    ensures forall k | 0 <= k < |RootsAmong(js, all, n)| ::
              RootsAmong(js, all, n)[k] < n && parents[RootsAmong(js, all, n)[k]] == -1
  {
    if n > 0 {
      var front := RootsAmong(js, all, n - 1);
      RootsAmongBelow(js, parents, all, n - 1);
      HasParentInMeaning(js, parents, all, n - 1);
      assert all[n - 1] == n - 1;
      if !HasParentIn(js, all, n - 1) {
        var r := front + [n - 1];
        assert RootsAmong(js, all, n) == r;
        assert parents[n - 1] == -1;
        forall k | 0 <= k < |r|
          ensures r[k] < n && parents[r[k]] == -1
        {
          if k < |front| {
            assert r[k] == front[k];
          }
        }
      }
    }
  }

  /** Every parentless joint among the first `n` is derived as a root. */
  lemma {:induction false} RootsAmongComplete(js: seq<Joint>, parents: seq<int>, all: seq<nat>, n: nat)
    requires Forest(js, parents) && n <= |js|
    requires |all| == |js| && forall k | 0 <= k < |all| :: all[k] == k
    ensures forall d | 0 <= d < n && parents[d] == -1 :: d in RootsAmong(js, all, n)
  {
    if n > 0 {
      RootsAmongComplete(js, parents, all, n - 1);
      HasParentInMeaning(js, parents, all, n - 1);
    }
  }

  /** No root is derived twice. */
  lemma {:induction false} RootsAmongDistinct(js: seq<Joint>, parents: seq<int>, all: seq<nat>, n: nat)
    requires Forest(js, parents) && n <= |js|
    requires |all| == |js| && forall k | 0 <= k < |all| :: all[k] == k
    ensures Distinct(RootsAmong(js, all, n))
  {
    if n > 0 {
      var front := RootsAmong(js, all, n - 1);
      RootsAmongDistinct(js, parents, all, n - 1);
      RootsAmongBelow(js, parents, all, n - 1);
      if !HasParentIn(js, all, all[n - 1]) {
        forall x | x in front
          ensures x !in [n - 1]
        {
        }
        DistinctConcat(front, [n - 1]);
      }
    }
  }

  /** AllJoints after `finalize` fills in the lists: RootJoints when there are roots, else as it was. */
  function ListedJoints(all: seq<nat>, roots: seq<nat>): seq<nat> {
    if roots == [] then all else roots
  }

  /** RootJoints after `finalize` fills in the lists: the joints of AllJoints without a parent, when none were given. */
  function ListedRoots(js: seq<Joint>, all: seq<nat>, roots: seq<nat>): (r: seq<nat>)
    requires InArena(js, all) && InArena(js, roots)
    ensures InArena(js, r)
  {
    if roots == [] && all != [] then RootsAmong(js, all, |all|) else roots
  }

  /** The roots derived from the whole arena: its parentless joints, each once. */
  lemma RootsOfArena(js: seq<Joint>, parents: seq<int>, all: seq<nat>)
    requires Forest(js, parents)
    requires |all| == |js| && forall k | 0 <= k < |all| :: all[k] == k
    ensures var r := RootsAmong(js, all, |all|);
            && InArena(js, r) && Distinct(r)
            && (forall k | 0 <= k < |r| :: parents[r[k]] == -1)
            && (forall d | 0 <= d < |js| :: d in r <==> parents[d] == -1)
  {
    RootsAmongArena(js, parents, all, |all|);
  }

  /**
    Filling in the lists keeps the bookkeeping well formed; when the roots were derived,
    they are exactly the parentless joints of the arena.
   */
  lemma ListedKeepsWellformed(js: seq<Joint>, parents: seq<int>, all: seq<nat>, roots: seq<nat>)
    requires Wellformed(js, parents, all, roots)
    ensures Wellformed(js, parents, ListedJoints(all, roots), ListedRoots(js, all, roots))
    ensures roots == [] ==> forall d | 0 <= d < |js| :: d in ListedRoots(js, all, roots) <==> parents[d] == -1
  {
    if roots == [] {
      RootsOfArena(js, parents, all);
    }
  }

  /** `finalize` points the animation source of every joint of `all` at the joint itself. */
  function SetSources(js: seq<Joint>, all: seq<nat>): (r: seq<Joint>)
    requires InArena(js, all)
    ensures |r| == |js|
  {
    seq(|js|, d requires 0 <= d < |js| => if d in all then js[d].(animationSource := Some(d)) else js[d])
  }

  /** Setting the sources keeps the bookkeeping well formed and leaves children, weights and keys alone. */
  lemma SetSourcesKeeps(js: seq<Joint>, parents: seq<int>, all: seq<nat>, roots: seq<nat>)
    requires Wellformed(js, parents, all, roots)
    ensures Wellformed(SetSources(js, all), parents, all, roots)
    ensures SameShape(js, SetSources(js, all))
    ensures forall d | 0 <= d < |js| :: SetSources(js, all)[d].keys == js[d].keys
  {
    WellformedNewSources(js, SetSources(js, all), parents, all, roots);
  }

  /** The bind pass changes neither children nor weights. */
  lemma BindKeepsShape(js: seq<Joint>, parents: seq<int>, alg: Algebra, roots: seq<nat>)
    requires |parents| == |js| && ParentsBelow(parents)
    ensures SameShape(js, BindAll(js, parents, alg, roots))
  {
  }

  /** `checkForAnimation`'s test: a joint of `all` has a source with keys, or carries weights. */
  predicate HasAnimationOf(js: seq<Joint>, all: seq<nat>)
    requires InArena(js, all) && SourcesInRange(js)
  {
    (exists k | 0 <= k < |all| :: SourceHasKeys(js, all[k]))
    || (exists k | 0 <= k < |all| :: |js[all[k]].weights| > 0)
  }

  /** `acc` raised to the last frame of `keys` when that is larger. */
  function RaiseTo<T>(acc: real, keys: seq<Key<T>>): (r: real)
    ensures r >= acc
    ensures |keys| > 0 ==> r >= keys[|keys| - 1].frame
    ensures r == acc || (|keys| > 0 && r == keys[|keys| - 1].frame)
  {
    if |keys| > 0 && keys[|keys| - 1].frame > acc then keys[|keys| - 1].frame else acc
  }

  /** The last frame of any track of the source of joint `j`, if larger than `acc`. */
  function RaiseToSource(acc: real, js: seq<Joint>, j: nat): real
    requires j < |js| && SourcesInRange(js)
  {
    match js[j].animationSource
    case None => acc
    case Some(s) => RaiseTo(RaiseTo(RaiseTo(acc, js[s].keys.position), js[s].keys.scale), js[s].keys.rotation)
  }

  /** The animation length over the first `n` joints of `all`, starting from 0. */
  function AnimationLength(js: seq<Joint>, all: seq<nat>, n: nat): real
    requires InArena(js, all) && SourcesInRange(js) && n <= |all|
  {
    if n == 0 then 0.0 else RaiseToSource(AnimationLength(js, all, n - 1), js, all[n - 1])
  }

  /** The last frame of the track, or nothing for an empty track. */
  predicate EndsAt<T>(keys: seq<Key<T>>, f: real) {
    |keys| > 0 && keys[|keys| - 1].frame == f
  }

  /** Joint `j`'s source has a track ending at frame `f`. */
  predicate SourceEndsAt(js: seq<Joint>, j: nat, f: real)
    requires j < |js| && SourcesInRange(js)
  {
    js[j].animationSource.Some? &&
      var t := js[js[j].animationSource.value].keys;
      EndsAt(t.position, f) || EndsAt(t.scale, f) || EndsAt(t.rotation, f)
  }

  /**
    The animation length is the largest last-key frame over the sources of the listed
    joints, or 0 when that is larger: it is at least 0 and every last frame, and it is 0
    or one of those last frames.
   */
  lemma {:induction false} AnimationLengthIsMax(js: seq<Joint>, all: seq<nat>, n: nat)
    requires InArena(js, all) && SourcesInRange(js) && n <= |all|
    ensures var len := AnimationLength(js, all, n);
            && len >= 0.0
            && (forall k, f | 0 <= k < n && SourceEndsAt(js, all[k], f) :: f <= len)
            && (len == 0.0 || exists k | 0 <= k < n :: SourceEndsAt(js, all[k], len))
  {
    if n > 0 {
      AnimationLengthIsMax(js, all, n - 1);
      var before := AnimationLength(js, all, n - 1);
      var len := AnimationLength(js, all, n);
      if len != before {
        assert SourceEndsAt(js, all[n - 1], len);
      } else if before != 0.0 {
        var k :| 0 <= k < n - 1 && SourceEndsAt(js, all[k], before);
      }
    }
  }

  /** The boundary fill applied to the tracks of every joint of `all`. */
  function FillAll(js: seq<Joint>, all: seq<nat>, frames: real): (r: seq<Joint>)
    ensures SameLinks(js, r) && SameShape(js, r)
  {
    seq(|js|, d requires 0 <= d < |js| => if d in all then js[d].(keys := FillTracks(js[d].keys, frames)) else js[d])
  }

  /** `buildAllLocalAnimatedMatrices`: every joint of `all` rebuilt with `BuildLocal`. */
  function LocalBuilt(js: seq<Joint>, all: seq<nat>): (r: seq<Joint>)
    requires SourcesInRange(js)
    ensures SameLinks(js, r) && SameShape(js, r)
  {
    seq(|js|, d requires 0 <= d < |js| => if d in all then BuildLocal(js, d) else js[d])
  }

  /** The pose loop of `animateMesh`: every joint of `all` sampled and blended. */
  function AnimateAllJoints(js: seq<Joint>, all: seq<nat>, frame: real, blend: real, trig: Q.SlerpWeights)
    : (r: seq<Joint>)
    requires SourcesInRange(js)
    ensures SameLinks(js, r) && SameShape(js, r) && SameAnimation(js, r)
  {
    seq(|js|, d requires 0 <= d < |js| => if d in all then AnimateJoint(js, d, frame, blend, trig) else js[d])
  }

  /** The subtree of `j` bind-posed, the rest unchanged (one call of `calculateGlobalMatrices`). */
  ghost function BindSubtree(js: seq<Joint>, parents: seq<int>, alg: Algebra, j: nat): (r: seq<Joint>)
    requires |parents| == |js| && ParentsBelow(parents)
    ensures |r| == |js|
  {
    seq(|js|, d requires 0 <= d < |js| =>
      if IsDescendant(parents, d, j) then BindPosed(js[d], BindGlobal(js, parents, alg, d), alg) else js[d])
  }

  /** The subtree of `j` with rebuilt animated globals (one call of `buildAllGlobalAnimatedMatrices`). */
  ghost function AnimateSubtree(js: seq<Joint>, parents: seq<int>, alg: Algebra, j: nat): (r: seq<Joint>)
    requires |parents| == |js| && ParentsBelow(parents)
    ensures |r| == |js|
  {
    seq(|js|, d requires 0 <= d < |js| =>
      if IsDescendant(parents, d, j) then js[d].(globalAnimated := AnimGlobal(js, parents, alg, d)) else js[d])
  }

  // ---------------------------------------------------------------- subtree passes

  /** `d` lies in the subtree of one of the first `k` of `tops`. */
  ghost predicate UnderTops(parents: seq<int>, tops: seq<nat>, k: nat, d: nat)
    requires d < |parents| && ParentsBelow(parents) && k <= |tops|
  {
    exists i | 0 <= i < k :: IsDescendant(parents, d, tops[i])
  }

  /** No joint lies in the subtrees of two different entries of `tops`. */
  ghost predicate DisjointTops(parents: seq<int>, tops: seq<nat>) {
    forall i, k, d | 0 <= i < k < |tops| && 0 <= d < |parents| && ParentsBelow(parents) ::
      !(IsDescendant(parents, d, tops[i]) && IsDescendant(parents, d, tops[k]))
  }

  lemma ChildrenDisjoint(js: seq<Joint>, parents: seq<int>, j: nat)
    requires Forest(js, parents) && j < |js|
    ensures DisjointTops(parents, js[j].children)
  {
    forall i, k, d | 0 <= i < k < |js[j].children| && 0 <= d < |parents|
      ensures !(IsDescendant(parents, d, js[j].children[i]) && IsDescendant(parents, d, js[j].children[k]))
    {
      SiblingSubtreesDisjoint(js, parents, j, i, k, d);
    }
  }

  lemma RootsDisjoint(parents: seq<int>, roots: seq<nat>)
    requires ParentsBelow(parents) && Distinct(roots)
    requires forall k | 0 <= k < |roots| :: roots[k] < |parents| && parents[roots[k]] == -1
    ensures DisjointTops(parents, roots)
  {
    forall i, k, d | 0 <= i < k < |roots| && 0 <= d < |parents|
      ensures !(IsDescendant(parents, d, roots[i]) && IsDescendant(parents, d, roots[k]))
    {
      RootSubtreesDisjoint(parents, roots[i], roots[k], d);
    }
  }

  /** The subtrees of the first `k` of `tops` bind-posed, the rest as it was. */
  ghost function BindTops(js: seq<Joint>, parents: seq<int>, alg: Algebra, tops: seq<nat>, k: nat): (r: seq<Joint>)
    requires |parents| == |js| && ParentsBelow(parents) && k <= |tops|
    ensures |r| == |js|
  {
    seq(|js|, d requires 0 <= d < |js| =>
      if UnderTops(parents, tops, k, d) then BindPosed(js[d], BindGlobal(js, parents, alg, d), alg) else js[d])
  }

  /** The subtrees of the first `k` of `tops` with rebuilt animated globals, the rest as it was. */
  ghost function AnimateTops(js: seq<Joint>, parents: seq<int>, alg: Algebra, tops: seq<nat>, k: nat): (r: seq<Joint>)
    requires |parents| == |js| && ParentsBelow(parents) && k <= |tops|
    ensures |r| == |js|
  {
    seq(|js|, d requires 0 <= d < |js| =>
      if UnderTops(parents, tops, k, d) then js[d].(globalAnimated := AnimGlobal(js, parents, alg, d)) else js[d])
  }

  /** Bind-posing subtrees changes neither local matrices, children, weights, keys nor sources. */
  lemma BindTopsKeeps(js: seq<Joint>, parents: seq<int>, alg: Algebra, tops: seq<nat>, k: nat)
    requires |parents| == |js| && ParentsBelow(parents) && k <= |tops|
    ensures var r := BindTops(js, parents, alg, tops, k);
            SameLocals(js, r) && SameLinks(js, r) && SameShape(js, r) && SameAnimation(js, r)
  {
  }

  /** Rebuilding animated globals changes nothing they are built from, nor the forest's links. */
  lemma AnimateTopsKeeps(js: seq<Joint>, parents: seq<int>, alg: Algebra, tops: seq<nat>, k: nat)
    requires |parents| == |js| && ParentsBelow(parents) && k <= |tops|
    ensures var r := AnimateTops(js, parents, alg, tops, k);
            SameAnimatedLocals(js, r) && SameLinks(js, r) && SameShape(js, r) && SameAnimation(js, r)
  {
  }

  /**
    One more subtree: bind-posing the subtree of tops[k] after the first k subtrees gives
    the first k + 1. This needs the subtrees to be disjoint, because bind-posing a joint
    twice is not bind-posing it once (the inverse is only recomputed from an identity).
   */
  lemma BindTopsStep(js: seq<Joint>, parents: seq<int>, alg: Algebra, tops: seq<nat>, k: nat)
    requires Forest(js, parents) && k < |tops| && tops[k] < |js| && DisjointTops(parents, tops)
    ensures BindSubtree(BindTops(js, parents, alg, tops, k), parents, alg, tops[k])
         == BindTops(js, parents, alg, tops, k + 1)
  {
    var before := BindTops(js, parents, alg, tops, k);
    assert SameLocals(js, before);
    forall d | 0 <= d < |js|
      ensures BindSubtree(before, parents, alg, tops[k])[d] == BindTops(js, parents, alg, tops, k + 1)[d]
    {
      if IsDescendant(parents, d, tops[k]) {
        assert !UnderTops(parents, tops, k, d);
        BindGlobalDependsOnLocals(js, before, parents, alg, d);
      }
    }
  }

  /** The animated pass on one more subtree; it overwrites, so no disjointness is needed. */
  lemma AnimateTopsStep(js: seq<Joint>, parents: seq<int>, alg: Algebra, tops: seq<nat>, k: nat)
    requires Forest(js, parents) && k < |tops| && tops[k] < |js|
    ensures AnimateSubtree(AnimateTops(js, parents, alg, tops, k), parents, alg, tops[k])
         == AnimateTops(js, parents, alg, tops, k + 1)
  {
    var before := AnimateTops(js, parents, alg, tops, k);
    assert SameAnimatedLocals(js, before);
    forall d | 0 <= d < |js|
      ensures AnimateSubtree(before, parents, alg, tops[k])[d] == AnimateTops(js, parents, alg, tops, k + 1)[d]
    {
      if IsDescendant(parents, d, tops[k]) {
        AnimGlobalDependsOnLocals(js, before, parents, alg, d);
      }
    }
  }

  /** Bind-posing the joint, then its children's subtrees, bind-poses its subtree. */
  lemma BindChildrenWhole(js: seq<Joint>, parents: seq<int>, alg: Algebra, j: nat)
    requires Forest(js, parents) && j < |js|
    ensures var first := js[j := BindPosed(js[j], BindGlobal(js, parents, alg, j), alg)];
            BindTops(first, parents, alg, js[j].children, |js[j].children|) == BindSubtree(js, parents, alg, j)
  {
    var first := js[j := BindPosed(js[j], BindGlobal(js, parents, alg, j), alg)];
    var cs := js[j].children;
    assert SameLocals(js, first);
    forall d | 0 <= d < |js|
      ensures BindTops(first, parents, alg, cs, |cs|)[d] == BindSubtree(js, parents, alg, j)[d]
    {
      SubtreeSplit(js, parents, j, d);
      BindGlobalDependsOnLocals(js, first, parents, alg, d);
      if d == j {
        if UnderTops(parents, cs, |cs|, d) {
          var i :| 0 <= i < |cs| && IsDescendant(parents, d, cs[i]);
          AncestorNotAfter(parents, d, cs[i]);
          assert false;
        }
      }
    }
  }

  /** Rebuilding the joint's animated global, then its children's subtrees, rebuilds its subtree. */
  lemma AnimateChildrenWhole(js: seq<Joint>, parents: seq<int>, alg: Algebra, j: nat)
    requires Forest(js, parents) && j < |js|
    ensures var first := js[j := js[j].(globalAnimated := AnimGlobal(js, parents, alg, j))];
            AnimateTops(first, parents, alg, js[j].children, |js[j].children|) == AnimateSubtree(js, parents, alg, j)
  {
    var first := js[j := js[j].(globalAnimated := AnimGlobal(js, parents, alg, j))];
    var cs := js[j].children;
    assert SameAnimatedLocals(js, first);
    forall d | 0 <= d < |js|
      ensures AnimateTops(first, parents, alg, cs, |cs|)[d] == AnimateSubtree(js, parents, alg, j)[d]
    {
      SubtreeSplit(js, parents, j, d);
      AnimGlobalDependsOnLocals(js, first, parents, alg, d);
      if d == j {
        if UnderTops(parents, cs, |cs|, d) {
          var i :| 0 <= i < |cs| && IsDescendant(parents, d, cs[i]);
          AncestorNotAfter(parents, d, cs[i]);
          assert false;
        }
      }
    }
  }

  /**
    What the recursion needs before handling child `k` of `j`: after `j` itself and its
    first `k` children's subtrees are bind-posed, the arena is still a forest, `j` holds
    its bind global, and bind-posing child `k`'s subtree gives the first `k + 1`.
   */
  lemma BindChildStep(js: seq<Joint>, parents: seq<int>, alg: Algebra, j: nat, k: nat)
    requires Forest(js, parents) && j < |js| && k < |js[j].children|
    ensures var first := js[j := BindPosed(js[j], BindGlobal(js, parents, alg, j), alg)];
            var cur := BindTops(first, parents, alg, js[j].children, k);
            var c := js[j].children[k];
            && Forest(cur, parents) && j < c < |cur| && parents[c] == j
            && cur[j].global == BindGlobal(cur, parents, alg, j)
            && BindSubtree(cur, parents, alg, c) == BindTops(first, parents, alg, js[j].children, k + 1)
  {
    var first := js[j := BindPosed(js[j], BindGlobal(js, parents, alg, j), alg)];
    var cs := js[j].children;
    ForestKeptBy(js, first, parents);
    BindGlobalDependsOnLocals(js, first, parents, alg, j);
    ChildrenDisjoint(first, parents, j);
    BindTopsKeeps(first, parents, alg, cs, k);
    var cur := BindTops(first, parents, alg, cs, k);
    ForestKeptBy(first, cur, parents);
    NotUnderOwnChildren(first, parents, j, k);
    BindGlobalDependsOnLocals(first, cur, parents, alg, j);
    BindTopsStep(first, parents, alg, cs, k);
  }

  /** The same for the animated pass. */
  lemma AnimateChildStep(js: seq<Joint>, parents: seq<int>, alg: Algebra, j: nat, k: nat)
    requires Forest(js, parents) && j < |js| && k < |js[j].children|
    ensures var first := js[j := js[j].(globalAnimated := AnimGlobal(js, parents, alg, j))];
            var cur := AnimateTops(first, parents, alg, js[j].children, k);
            var c := js[j].children[k];
            && Forest(cur, parents) && j < c < |cur| && parents[c] == j
            && cur[j].globalAnimated == AnimGlobal(cur, parents, alg, j)
            && AnimateSubtree(cur, parents, alg, c) == AnimateTops(first, parents, alg, js[j].children, k + 1)
  {
    var first := js[j := js[j].(globalAnimated := AnimGlobal(js, parents, alg, j))];
    var cs := js[j].children;
    ForestKeptBy(js, first, parents);
    AnimGlobalDependsOnLocals(js, first, parents, alg, j);
    AnimateTopsKeeps(first, parents, alg, cs, k);
    var cur := AnimateTops(first, parents, alg, cs, k);
    ForestKeptBy(first, cur, parents);
    NotUnderOwnChildren(first, parents, j, k);
    AnimGlobalDependsOnLocals(first, cur, parents, alg, j);
    AnimateTopsStep(first, parents, alg, cs, k);
  }

  /**
    What the root loop needs before root `k`: the arena with the first `k` root subtrees
    bind-posed is still a forest, and bind-posing root `k`'s subtree gives the first
    `k + 1`; after the last root the whole forest reachable from the roots is posed.
   */
  lemma BindRootStep(js: seq<Joint>, parents: seq<int>, alg: Algebra, roots: seq<nat>, k: nat)
    requires Forest(js, parents) && InArena(js, roots) && Distinct(roots) && k < |roots|
    requires forall i | 0 <= i < |roots| :: parents[roots[i]] == -1
    ensures var cur := BindTops(js, parents, alg, roots, k);
            && Forest(cur, parents) && roots[k] < |cur| && parents[roots[k]] == -1
            && BindSubtree(cur, parents, alg, roots[k]) == BindTops(js, parents, alg, roots, k + 1)
  {
    RootsDisjoint(parents, roots);
    BindTopsKeeps(js, parents, alg, roots, k);
    ForestKeptBy(js, BindTops(js, parents, alg, roots, k), parents);
    BindTopsStep(js, parents, alg, roots, k);
  }

  lemma AnimateRootStep(js: seq<Joint>, parents: seq<int>, alg: Algebra, roots: seq<nat>, k: nat)
    requires Forest(js, parents) && InArena(js, roots) && k < |roots|
    requires forall i | 0 <= i < |roots| :: parents[roots[i]] == -1
    ensures var cur := AnimateTops(js, parents, alg, roots, k);
            && Forest(cur, parents) && roots[k] < |cur| && parents[roots[k]] == -1
            && AnimateSubtree(cur, parents, alg, roots[k]) == AnimateTops(js, parents, alg, roots, k + 1)
  {
    AnimateTopsKeeps(js, parents, alg, roots, k);
    ForestKeptBy(js, AnimateTops(js, parents, alg, roots, k), parents);
    AnimateTopsStep(js, parents, alg, roots, k);
  }

  /** All root subtrees passed: the bind pass over the whole reachable forest. */
  lemma BindRootsWhole(js: seq<Joint>, parents: seq<int>, alg: Algebra, roots: seq<nat>)
    requires |parents| == |js| && ParentsBelow(parents)
    ensures BindTops(js, parents, alg, roots, |roots|) == BindAll(js, parents, alg, roots)
  {
  }

  lemma AnimateRootsWhole(js: seq<Joint>, parents: seq<int>, alg: Algebra, roots: seq<nat>)
    requires |parents| == |js| && ParentsBelow(parents)
    ensures AnimateTops(js, parents, alg, roots, |roots|) == AnimateAll(js, parents, alg, roots)
  {
  }

  /** A joint's children's subtrees do not contain the joint itself. */
  lemma NotUnderOwnChildren(js: seq<Joint>, parents: seq<int>, j: nat, k: nat)
    requires Forest(js, parents) && j < |js| && k <= |js[j].children|
    ensures !UnderTops(parents, js[j].children, k, j)
  {
    if UnderTops(parents, js[j].children, k, j) {
      var i :| 0 <= i < k && IsDescendant(parents, j, js[j].children[i]);
      AncestorNotAfter(parents, j, js[j].children[i]);
      assert false;
    }
  }

  /** The walks of the first `k` children are among the walks of the first `m`. */
  lemma {:induction false} WalkChildrenGrow(js: seq<Joint>, j: nat, k: nat, m: nat)
    requires ChildrenAfter(js) && j < |js| && k <= m <= |js[j].children|
    ensures forall x | x in WalkChildren(js, j, k) :: x in WalkChildren(js, j, m)
    decreases m
  {
    if k < m {
      WalkChildrenGrow(js, j, k, m - 1);
    }
  }

  /** The walks of the first `k` roots are among the walks of the first `m`. */
  lemma {:induction false} WalkRootsGrow(js: seq<Joint>, roots: seq<nat>, k: nat, m: nat)
    requires ChildrenAfter(js) && k <= m <= |roots| && forall i | 0 <= i < |roots| :: roots[i] < |js|
    ensures forall x | x in WalkRoots(js, roots, k) :: x in WalkRoots(js, roots, m)
    decreases m
  {
    if k < m {
      WalkRootsGrow(js, roots, k, m - 1);
    }
  }

  /** Sampling depends on the joint's source and on the keys in the arena alone. */
  lemma JointFrameDataDependsOnAnimation(a: seq<Joint>, b: seq<Joint>, j: nat, frame: real, pose: Pose,
                                         hints: Hints, trig: Q.SlerpWeights)
    requires j < |a| && SourcesInRange(a) && SameAnimation(a, b)
    ensures SourcesInRange(b)
    ensures JointFrameData(a, j, frame, pose, hints, trig) == JointFrameData(b, j, frame, pose, hints, trig)
  {
    forall d | 0 <= d < |b| && b[d].animationSource.Some?
      ensures b[d].animationSource.value < |b|
    {
      assert a[d].animationSource == b[d].animationSource;
    }
    if a[j].animationSource.Some? {
      assert a[a[j].animationSource.value].keys == b[a[j].animationSource.value].keys;
    }
  }
}
