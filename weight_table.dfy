/**
  The per-vertex weight tables of a skinned mesh: the totals `normalizeWeights` adds up,
  the influence table `Weights` (buffer -> vertex -> (skinning index, strength)) that
  `computeWeightInfluence` fills, and the packing of each vertex's four strongest
  influences into `WeightBuffers` at the end of `finalize`.
 */
module WeightTable {
  import opened Skeleton

  /** One contribution to a vertex: a skinning index and a strength. */
  datatype Influence = Influence(index: nat, strength: real)

  /** A float after a division: a finite value, or NaN / infinity after dividing by zero. */
  datatype FloatResult = Finite(value: real) | NonFinite

  /** WeightInfluence: a skinning index (-1 for an unused slot) and its weight. */
  datatype WeightInfluence = WeightInfluence(index: int, weight: FloatResult)

  /** Float division `x / d`. */
  function Quotient(x: real, d: real): (r: FloatResult)
    ensures r.Finite? <==> d != 0.0
    ensures r.Finite? ==> r.value * d == x
  {
    if d == 0.0 then NonFinite else Finite(x / d)
  }

  // ---------------------------------------------------------------- layout

  /** One empty contribution list per vertex of each buffer. */
  function EmptyTables(sizes: seq<nat>): (t: seq<seq<seq<Influence>>>)
    ensures |t| == |sizes|
    ensures forall b | 0 <= b < |sizes| :: |t[b]| == sizes[b] && forall v | 0 <= v < sizes[b] :: t[b][v] == []
  {
    seq(|sizes|, b requires 0 <= b < |sizes| => seq(sizes[b], v => []))
  }

  /** The weight names a vertex the table has. */
  predicate Fits<T>(t: seq<seq<T>>, w: Weight) {
    var b, v := w.bufferId as int, w.vertexId as int;
    b < |t| && v < |t[b]|
  }

  predicate AllFit<T>(t: seq<seq<T>>, ws: seq<Weight>) {
    forall i | 0 <= i < |ws| :: Fits(t, ws[i])
  }

  /** The same number of buffers, and of vertices in each. */
  predicate SameLayout<T, U>(a: seq<seq<T>>, b: seq<seq<U>>) {
    |a| == |b| && forall i | 0 <= i < |a| :: |a[i]| == |b[i]|
  }

  lemma FitsByLayout<T, U>(a: seq<seq<T>>, b: seq<seq<U>>, ws: seq<Weight>)
    requires SameLayout(a, b) && AllFit(a, ws)
    ensures AllFit(b, ws)
  {
  }

  // ---------------------------------------------------------------- totals

  /**
    Adds every positive strength of `ws` to its vertex's total; the others are skipped.
    A weight naming a vertex outside the table is skipped too: the source writes out of
    bounds there, and the methods built on this require every weight to fit.
   */
  function AddStrengths(t: seq<seq<real>>, ws: seq<Weight>): (r: seq<seq<real>>)
    ensures SameLayout(t, r)
  {
    if |ws| == 0 then t
    else
      var t' := AddStrengths(t, ws[..|ws| - 1]);
      var w := ws[|ws| - 1];
      var b, v := w.bufferId as int, w.vertexId as int;
      if w.strength <= 0.0 || !Fits(t', w) then t'
      else t'[b := t'[b][v := t'[b][v] + w.strength]]
  }

  /** The positive strengths of the listed joints' weights aimed at their vertices, summed. */
  function Totals(t: seq<seq<real>>, js: seq<Joint>, joints: seq<nat>): (r: seq<seq<real>>)
    requires InArena(js, joints)
    ensures SameLayout(t, r)
  {
    if |joints| == 0 then t
    else AddStrengths(Totals(t, js, joints[..|joints| - 1]), js[joints[|joints| - 1]].weights)
  }

  /** The positive strengths in `ws` aimed at vertex `v` of buffer `b`, summed. */
  function StrengthOn(ws: seq<Weight>, b: nat, v: nat): real {
    if |ws| == 0 then 0.0
    else
      var w := ws[|ws| - 1];
      StrengthOn(ws[..|ws| - 1], b, v)
        + (if w.strength > 0.0 && w.bufferId as int == b && w.vertexId as int == v then w.strength else 0.0)
  }

  /** The positive strengths of all the listed joints aimed at vertex `v` of buffer `b`. */
  function TotalOn(js: seq<Joint>, joints: seq<nat>, b: nat, v: nat): (s: real)
    requires forall k | 0 <= k < |joints| :: joints[k] < |js|
    ensures s >= 0.0
  {
    if |joints| == 0 then 0.0
    else
      StrengthOnNonNegative(js[joints[|joints| - 1]].weights, b, v);
      TotalOn(js, joints[..|joints| - 1], b, v) + StrengthOn(js[joints[|joints| - 1]].weights, b, v)
  }

  lemma {:induction false} StrengthOnNonNegative(ws: seq<Weight>, b: nat, v: nat)
    ensures StrengthOn(ws, b, v) >= 0.0
  {
    if |ws| > 0 {
      StrengthOnNonNegative(ws[..|ws| - 1], b, v);
    }
  }

  /** Scattering the strengths weight by weight adds exactly each vertex's own sum. */
  lemma {:induction false} AddStrengthsMeaning(t: seq<seq<real>>, ws: seq<Weight>, b: nat, v: nat)
    requires b < |t| && v < |t[b]|
    ensures AddStrengths(t, ws)[b][v] == t[b][v] + StrengthOn(ws, b, v)
  {
    if |ws| > 0 {
      AddStrengthsMeaning(t, ws[..|ws| - 1], b, v);
    }
  }

  /**
    The totals table holds, for each vertex, its starting value plus the sum of the
    positive strengths aimed at it by the listed joints; weights of zero or negative
    strength count for nothing.
   */
  lemma {:induction false} TotalsMeaning(t: seq<seq<real>>, js: seq<Joint>, joints: seq<nat>, b: nat, v: nat)
    requires InArena(js, joints)
    requires b < |t| && v < |t[b]|
    ensures Totals(t, js, joints)[b][v] == t[b][v] + TotalOn(js, joints, b, v)
  {
    if |joints| > 0 {
      var t' := Totals(t, js, joints[..|joints| - 1]);
      TotalsMeaning(t, js, joints[..|joints| - 1], b, v);
      AddStrengthsMeaning(t', js[joints[|joints| - 1]].weights, b, v);
    }
  }

  /** All-zero starting totals for the given vertex counts. */
  function ZeroTotals(sizes: seq<nat>): (t: seq<seq<real>>)
    ensures |t| == |sizes| && forall b | 0 <= b < |sizes| :: |t[b]| == sizes[b]
  {
    seq(|sizes|, b requires 0 <= b < |sizes| => seq(sizes[b], v => 0.0))
  }

  // ---------------------------------------------------------------- influence table

  /** Appends `x` to the contributions of vertex `v` of buffer `b`. */
  function Push(t: seq<seq<seq<Influence>>>, b: nat, v: nat, x: Influence): (r: seq<seq<seq<Influence>>>)
    requires b < |t| && v < |t[b]|
    ensures SameLayout(t, r)
  {
    t[b := t[b][v := t[b][v] + [x]]]
  }

  /** `computeWeightInfluence` on one joint: each weight, in order, adds (index, strength) to its vertex. */
  function PushWeights(t: seq<seq<seq<Influence>>>, ws: seq<Weight>, index: nat): (r: seq<seq<seq<Influence>>>)
    ensures SameLayout(t, r)
  {
    if |ws| == 0 then t
    else
      var w := ws[|ws| - 1];
      var t' := PushWeights(t, ws[..|ws| - 1], index);
      if Fits(t', w) then Push(t', w.bufferId as nat, w.vertexId as nat, Influence(index, w.strength)) else t'
  }

  /** Every weight of every listed joint names a vertex of the table. */
  predicate OrderFits<T>(t: seq<seq<T>>, js: seq<Joint>, order: seq<nat>) {
    forall k | 0 <= k < |order| :: order[k] < |js| && AllFit(t, js[order[k]].weights)
  }

  /**
    The listed joints, in order, push their weights with indices start, start + 1, ...
    (a weight naming a vertex outside the table is skipped, as in AddStrengths).
   */
  function AddInfluences(t: seq<seq<seq<Influence>>>, js: seq<Joint>, order: seq<nat>, start: nat)
    : (r: seq<seq<seq<Influence>>>)
    requires InArena(js, order)
    ensures SameLayout(t, r)
  {
    if |order| == 0 then t
    else
      var n := |order| - 1;
      PushWeights(AddInfluences(t, js, order[..n], start), js[order[n]].weights, start + n)
  }

  lemma OrderFitsByLayout<T, U>(a: seq<seq<T>>, b: seq<seq<U>>, js: seq<Joint>, order: seq<nat>)
    requires SameLayout(a, b) && OrderFits(a, js, order)
    ensures OrderFits(b, js, order)
  {
  }

  lemma OrderFitsSubset<T>(t: seq<seq<T>>, js: seq<Joint>, a: seq<nat>, b: seq<nat>)
    requires OrderFits(t, js, a) && forall x | x in b :: x in a
    ensures OrderFits(t, js, b)
  {
    forall k | 0 <= k < |b|
      ensures b[k] < |js| && AllFit(t, js[b[k]].weights)
    {
      assert b[k] in b;
      var i :| 0 <= i < |a| && a[i] == b[k];
    }
  }

  lemma InArenaConcat(js: seq<Joint>, a: seq<nat>, b: seq<nat>)
    requires InArena(js, a) && InArena(js, b)
    ensures InArena(js, a + b)
  {
  }

  /** The walk of `a + b` ends with the last joint of `b`, after the walk of `a` and the rest of `b`. */
  lemma AddInfluencesLast(t: seq<seq<seq<Influence>>>, js: seq<Joint>, a: seq<nat>, b: seq<nat>, start: nat)
    requires |b| > 0 && InArena(js, b) && InArena(js, a + b) && InArena(js, a + b[..|b| - 1])
    ensures AddInfluences(t, js, a + b, start)
         == PushWeights(AddInfluences(t, js, a + b[..|b| - 1], start), js[b[|b| - 1]].weights, start + |a| + |b| - 1)
  {
    var n := |b| - 1;
    var ab := a + b;
    assert ab[..|a| + n] == a + b[..n];
    assert ab[|a| + n] == b[n];
  }

  /** Walking two joint lists one after the other numbers the second from where the first stopped. */
  lemma {:induction false} AddInfluencesConcat(t: seq<seq<seq<Influence>>>, js: seq<Joint>,
                                               a: seq<nat>, b: seq<nat>, start: nat)
    requires InArena(js, a) && InArena(js, b)
    ensures InArena(js, a + b)
    ensures AddInfluences(t, js, a + b, start)
         == AddInfluences(AddInfluences(t, js, a, start), js, b, start + |a|)
    decreases |b|
  {
    if |b| == 0 {
      assert a + b == a;
    } else {
      AddInfluencesConcat(t, js, a, b[..|b| - 1], start);
      InArenaConcat(js, a, b);
      InArenaConcat(js, a, b[..|b| - 1]);
      AddInfluencesLast(t, js, a, b, start);
    }
  }

  /** What the walk of `computeWeightInfluence` needs before child `k`: its weights fit the table. */
  lemma ChildOrderFits<T, U>(t: seq<seq<T>>, r: seq<seq<U>>, js: seq<Joint>, j: nat, k: nat)
    requires ChildrenAfter(js) && j < |js| && k < |js[j].children|
    requires OrderFits(t, js, WalkChildren(js, j, |js[j].children|)) && SameLayout(t, r)
    ensures OrderFits(r, js, Walk(js, js[j].children[k]))
  {
    WalkChildrenGrow(js, j, k + 1, |js[j].children|);
    assert WalkChildren(js, j, k + 1) == WalkChildren(js, j, k) + Walk(js, js[j].children[k]);
    OrderFitsSubset(t, js, WalkChildren(js, j, |js[j].children|), Walk(js, js[j].children[k]));
    OrderFitsByLayout(t, r, js, Walk(js, js[j].children[k]));
  }

  /** After its own weights, a joint's children still fit the table. */
  lemma ChildrenOrderFit<T, U>(t: seq<seq<T>>, r: seq<seq<U>>, js: seq<Joint>, j: nat)
    requires ChildrenAfter(js) && j < |js|
    requires OrderFits(t, js, Walk(js, j)) && SameLayout(t, r)
    ensures OrderFits(r, js, WalkChildren(js, j, |js[j].children|))
  {
    OrderFitsSubset(t, js, Walk(js, j), WalkChildren(js, j, |js[j].children|));
    OrderFitsByLayout(t, r, js, WalkChildren(js, j, |js[j].children|));
  }

  /** A joint's own weights, then its children's walks, are its whole walk. */
  lemma InfluenceWalkSplit(t: seq<seq<seq<Influence>>>, js: seq<Joint>, j: nat, index: nat,
                           own: seq<seq<seq<Influence>>>, r: seq<seq<seq<Influence>>>)
    requires ChildrenAfter(js) && j < |js|
    requires own == AddInfluences(t, js, Own(js, j), index)
    requires r == AddInfluences(own, js, WalkChildren(js, j, |js[j].children|), index + |Own(js, j)|)
    ensures r == AddInfluences(t, js, Walk(js, j), index)
    ensures |Walk(js, j)| == |Own(js, j)| + |WalkChildren(js, j, |js[j].children|)|
  {
    var a, b := Own(js, j), WalkChildren(js, j, |js[j].children|);
    assert Walk(js, j) == a + b;
    AddInfluencesConcat(t, js, a, b, index);
  }

  /** The table and the next index once the first `k` children of `j` are walked. */
  predicate ChildrenDone(t: seq<seq<seq<Influence>>>, js: seq<Joint>, j: nat, k: nat, index: nat,
                         r: seq<seq<seq<Influence>>>, next: nat)
    requires ChildrenAfter(js) && j < |js| && k <= |js[j].children|
  {
    && r == AddInfluences(t, js, WalkChildren(js, j, k), index)
    && next == index + |WalkChildren(js, j, k)|
    && SameLayout(t, r)
  }

  /** After child `k`'s walk the table holds the first k + 1 children's contributions. */
  lemma InfluenceChildStep(t: seq<seq<seq<Influence>>>, js: seq<Joint>, j: nat, k: nat, index: nat,
                           r: seq<seq<seq<Influence>>>, next: nat, r': seq<seq<seq<Influence>>>, next': nat)
    requires ChildrenAfter(js) && j < |js| && k < |js[j].children|
    requires ChildrenDone(t, js, j, k, index, r, next)
    requires r' == AddInfluences(r, js, Walk(js, js[j].children[k]), next)
    requires next' == next + |Walk(js, js[j].children[k])|
    ensures ChildrenDone(t, js, j, k + 1, index, r', next')
  {
    var a, b := WalkChildren(js, j, k), Walk(js, js[j].children[k]);
    assert WalkChildren(js, j, k + 1) == a + b;
    AddInfluencesConcat(t, js, a, b, index);
  }

  /** What the root loop of `finalize` needs before root `k`: its walk's weights fit the table. */
  lemma RootOrderFits<T, U>(t: seq<seq<T>>, r: seq<seq<U>>, js: seq<Joint>, roots: seq<nat>, k: nat)
    requires ChildrenAfter(js) && InArena(js, roots) && k < |roots|
    requires OrderFits(t, js, SkinOrder(js, roots)) && SameLayout(t, r)
    ensures OrderFits(r, js, Walk(js, roots[k]))
  {
    WalkRootsGrow(js, roots, k + 1, |roots|);
    assert WalkRoots(js, roots, k + 1) == WalkRoots(js, roots, k) + Walk(js, roots[k]);
    OrderFitsSubset(t, js, SkinOrder(js, roots), Walk(js, roots[k]));
    OrderFitsByLayout(t, r, js, Walk(js, roots[k]));
  }

  /** The table and the counter `idx` once the first `k` roots are walked. */
  predicate RootsDone(t: seq<seq<seq<Influence>>>, js: seq<Joint>, roots: seq<nat>, k: nat,
                      r: seq<seq<seq<Influence>>>, next: nat)
    requires ChildrenAfter(js) && InArena(js, roots) && k <= |roots|
  {
    && r == AddInfluences(t, js, WalkRoots(js, roots, k), 0)
    && next == |WalkRoots(js, roots, k)|
    && SameLayout(t, r)
  }

  /** After root `k`'s walk the table holds the first k + 1 roots' contributions. */
  lemma InfluenceRootStep(t: seq<seq<seq<Influence>>>, js: seq<Joint>, roots: seq<nat>, k: nat,
                          r: seq<seq<seq<Influence>>>, next: nat, r': seq<seq<seq<Influence>>>, next': nat)
    requires ChildrenAfter(js) && InArena(js, roots) && k < |roots|
    requires RootsDone(t, js, roots, k, r, next)
    requires r' == AddInfluences(r, js, Walk(js, roots[k]), next)
    requires next' == next + |Walk(js, roots[k])|
    ensures RootsDone(t, js, roots, k + 1, r', next')
  {
    var a, b := WalkRoots(js, roots, k), Walk(js, roots[k]);
    assert WalkRoots(js, roots, k + 1) == a + b;
    AddInfluencesConcat(t, js, a, b, 0);
  }

  /** Whether weights fit depends on the weights alone. */
  lemma OrderFitsByShape<T>(t: seq<seq<T>>, a: seq<Joint>, b: seq<Joint>, order: seq<nat>)
    requires OrderFits(t, a, order) && SameShape(a, b)
    ensures OrderFits(t, b, order)
  {
    forall k | 0 <= k < |order|
      ensures order[k] < |b| && AllFit(t, b[order[k]].weights)
    {
      assert a[order[k]].weights == b[order[k]].weights;
    }
  }

  /** The contributions `ws` makes to vertex `v` of buffer `b` under skinning index `index`. */
  function Targeting(ws: seq<Weight>, b: nat, v: nat, index: nat): (r: seq<Influence>)
    ensures forall x | x in r :: x.index == index
  {
    if |ws| == 0 then []
    else
      var w := ws[|ws| - 1];
      Targeting(ws[..|ws| - 1], b, v, index)
        + (if w.bufferId as int == b && w.vertexId as int == v then [Influence(index, w.strength)] else [])
  }

  /**
    The contributions the listed joints make to vertex `v` of buffer `b`: joint order[k]
    contributes under index start + k, one entry per weight aimed at the vertex.
   */
  function Contributions(js: seq<Joint>, order: seq<nat>, start: nat, b: nat, v: nat): seq<Influence>
    requires forall k | 0 <= k < |order| :: order[k] < |js|
  {
    if |order| == 0 then []
    else
      var n := |order| - 1;
      Contributions(js, order[..n], start, b, v) + Targeting(js[order[n]].weights, b, v, start + n)
  }

  lemma {:induction false} PushWeightsMeaning(t: seq<seq<seq<Influence>>>, ws: seq<Weight>, index: nat, b: nat, v: nat)
    requires b < |t| && v < |t[b]|
    ensures PushWeights(t, ws, index)[b][v] == t[b][v] + Targeting(ws, b, v, index)
  {
    if |ws| > 0 {
      PushWeightsMeaning(t, ws[..|ws| - 1], index, b, v);
    }
  }

  /**
    The per-joint scatter of `computeWeightInfluence` builds, for each vertex, its
    previous contributions followed by the per-vertex view `Contributions`.
   */
  lemma {:induction false} AddInfluencesMeaning(t: seq<seq<seq<Influence>>>, js: seq<Joint>,
                                                order: seq<nat>, start: nat, b: nat, v: nat)
    requires InArena(js, order) && b < |t| && v < |t[b]|
    ensures AddInfluences(t, js, order, start)[b][v] == t[b][v] + Contributions(js, order, start, b, v)
  {
    if |order| > 0 {
      var n := |order| - 1;
      var t' := AddInfluences(t, js, order[..n], start);
      AddInfluencesMeaning(t, js, order[..n], start, b, v);
      PushWeightsMeaning(t', js[order[n]].weights, start + n, b, v);
    }
  }

  lemma {:induction false} TargetingMeaning(ws: seq<Weight>, b: nat, v: nat, index: nat, x: Influence)
    requires b < 0x1_0000 && v < 0x1_0000
    ensures x in Targeting(ws, b, v, index) <==>
            x.index == index && Weight(b as u16, v as u16, x.strength) in ws
  {
    if |ws| > 0 {
      var front := ws[..|ws| - 1];
      TargetingMeaning(front, b, v, index, x);
      assert ws == front + [ws[|ws| - 1]];
    }
  }

  /**
    Index/weight coupling: an entry (i, s) at vertex `v` of buffer `b` comes from exactly
    a weight of strength s on that vertex carried by the joint walked at position
    i - start, and every such weight yields such an entry.
   */
  lemma {:induction false} ContributionsMeaning(js: seq<Joint>, order: seq<nat>, start: nat,
                                                b: nat, v: nat, x: Influence)
    requires forall k | 0 <= k < |order| :: order[k] < |js|
    requires b < 0x1_0000 && v < 0x1_0000
    ensures x in Contributions(js, order, start, b, v) <==>
            start <= x.index < start + |order|
            && Weight(b as u16, v as u16, x.strength) in js[order[x.index - start]].weights
  {
    if |order| > 0 {
      var n := |order| - 1;
      ContributionsMeaning(js, order[..n], start, b, v, x);
      TargetingMeaning(js[order[n]].weights, b, v, start + n, x);
    }
  }

  // ---------------------------------------------------------------- sorting

  /** Strengths never increase along the list. */
  predicate ByStrength(s: seq<Influence>) {
    forall i, k | 0 <= i < k < |s| :: s[i].strength >= s[k].strength
  }

  /** Inserts `x` after every entry at least as strong. */
  function Insert(x: Influence, s: seq<Influence>): (r: seq<Influence>)
    ensures |r| == |s| + 1
  {
    if |s| == 0 then [x]
    else if s[0].strength >= x.strength then [s[0]] + Insert(x, s[1..])
    else [x] + s
  }

  lemma {:induction false} InsertPermutes(x: Influence, s: seq<Influence>)
    ensures multiset(Insert(x, s)) == multiset(s) + multiset{x}
  {
    if |s| > 0 {
      assert s == [s[0]] + s[1..];
      if s[0].strength >= x.strength {
        InsertPermutes(x, s[1..]);
      }
    }
  }

  /** Inserting an entry no stronger than `bound` into entries no stronger than `bound` keeps them so. */
  lemma {:induction false} InsertBelow(x: Influence, s: seq<Influence>, bound: real)
    requires x.strength <= bound && forall i | 0 <= i < |s| :: s[i].strength <= bound
    ensures forall i | 0 <= i < |Insert(x, s)| :: Insert(x, s)[i].strength <= bound
  {
    if |s| > 0 && s[0].strength >= x.strength {
      InsertBelow(x, s[1..], bound);
      assert Insert(x, s) == [s[0]] + Insert(x, s[1..]);
    }
  }

  /** Inserting into a list ordered by strength keeps it ordered. */
  lemma {:induction false} InsertSorted(x: Influence, s: seq<Influence>)
    requires ByStrength(s)
    ensures ByStrength(Insert(x, s))
  {
    if |s| > 0 && s[0].strength >= x.strength {
      var rest := Insert(x, s[1..]);
      InsertSorted(x, s[1..]);
      InsertBelow(x, s[1..], s[0].strength);
      var r := [s[0]] + rest;
      assert Insert(x, s) == r;
      forall i, k | 0 <= i < k < |r|
        ensures r[i].strength >= r[k].strength
      {
        assert r[k] == rest[k - 1];
        if i > 0 {
          assert r[i] == rest[i - 1];
        }
      }
    }
  }

  /**
    The sort by descending strength: the result is ordered and a permutation of the
    input. Entries of equal strength keep their input order.
   */
  function SortByStrength(s: seq<Influence>): (r: seq<Influence>)
    ensures ByStrength(r)
    ensures multiset(r) == multiset(s)
  {
    if |s| == 0 then []
    else
      assert s == s[..|s| - 1] + [s[|s| - 1]];
      var sorted := SortByStrength(s[..|s| - 1]);
      InsertPermutes(s[|s| - 1], sorted);
      InsertSorted(s[|s| - 1], sorted);
      Insert(s[|s| - 1], sorted)
  }

  // ---------------------------------------------------------------- packing

  /** At most four influences are kept per vertex. */
  function Bound(n: nat): nat {
    if n > 4 then 4 else n
  }

  /** The sum of the first `k` strengths (`current_weight`). */
  function KeptSum(c: seq<Influence>, k: nat): real
    requires k <= |c|
  {
    if k == 0 then 0.0 else KeptSum(c, k - 1) + c[k - 1].strength
  }

  /**
    The four slots written for one vertex from its sorted contributions: the first
    min(4, n) carry their index and strength, the others index -1 and strength 0, and
    every slot is divided by the sum of the kept strengths.
   */
  function PackedVertex(c: seq<Influence>): seq<WeightInfluence> {
    var bound := Bound(|c|);
    var total := KeptSum(c, bound);
    seq(4, k requires 0 <= k < 4 =>
      if k < bound then WeightInfluence(c[k].index, Quotient(c[k].strength, total))
      else WeightInfluence(-1, Quotient(0.0, total)))
  }

  /** The sum of the first `k` slot weights, when they are all finite. */
  function SlotSum(r: seq<WeightInfluence>, k: nat): real
    requires k <= |r| && forall i | 0 <= i < k :: r[i].weight.Finite?
  {
    if k == 0 then 0.0 else SlotSum(r, k - 1) + r[k - 1].weight.value
  }

  /**
    The packing keeps the strongest influences: on a sorted list the slots hold the
    first min(4, n) entries in order, every kept strength is at least every dropped one,
    and the unused slots are marked with index -1.
   */
  lemma PackedKeepsStrongest(c: seq<Influence>)
    requires ByStrength(c)
    ensures var r := PackedVertex(c);
            && |r| == 4
            && (forall k | 0 <= k < Bound(|c|) :: r[k].index == c[k].index)
            && (forall k | Bound(|c|) <= k < 4 :: r[k].index == -1)
            && (forall i, d | 0 <= i < Bound(|c|) <= d < |c| :: c[i].strength >= c[d].strength)
  {
  }

  /**
    When the kept strengths do not sum to zero the four weights are finite and sum to
    one; when they do (in particular for a vertex no joint pulls on) every weight is the
    result of a division by zero.
   */
  lemma PackedWeightsSumToOne(c: seq<Influence>)
    ensures var r := PackedVertex(c);
            var total := KeptSum(c, Bound(|c|));
            && (total != 0.0 ==> (forall k | 0 <= k < 4 :: r[k].weight.Finite?) && SlotSum(r, 4) == 1.0)
            && (total == 0.0 ==> forall k | 0 <= k < 4 :: r[k].weight == NonFinite)
  {
    var r := PackedVertex(c);
    var bound := Bound(|c|);
    var total := KeptSum(c, bound);
    if total != 0.0 {
      PrefixSlotSum(c, 4);
      assert SlotSum(r, 4) == total / total == 1.0;
    } else {
      forall k | 0 <= k < 4
        ensures r[k].weight == NonFinite
      {
        if k < bound {
          assert r[k].weight == Quotient(c[k].strength, total);
        } else {
          assert r[k].weight == Quotient(0.0, total);
        }
      }
    }
  }

  lemma {:induction false} PrefixSlotSum(c: seq<Influence>, k: nat)
    requires k <= 4 && KeptSum(c, Bound(|c|)) != 0.0
    ensures var r := PackedVertex(c);
            (forall i | 0 <= i < k :: r[i].weight.Finite?)
            && SlotSum(r, k) == KeptSum(c, if k < Bound(|c|) then k else Bound(|c|)) / KeptSum(c, Bound(|c|))
  {
    if k > 0 {
      PrefixSlotSum(c, k - 1);
      var r := PackedVertex(c);
      var bound := Bound(|c|);
      var total := KeptSum(c, bound);
      var before := KeptSum(c, if k - 1 < bound then k - 1 else bound);
      if k - 1 < bound {
        assert r[k - 1].weight == Finite(c[k - 1].strength / total);
        assert KeptSum(c, k) == before + c[k - 1].strength;
        DivideSum(before, c[k - 1].strength, total);
      } else {
        assert r[k - 1].weight == Finite(0.0 / total);
      }
    }
  }

  lemma DivideSum(a: real, b: real, d: real)
    requires d != 0.0
    ensures a / d + b / d == (a + b) / d
  {
  }

  /** All vertices of a buffer: four slots each, in vertex order. */
  function PackBuffer(vs: seq<seq<Influence>>): (r: seq<WeightInfluence>)
    ensures |r| == 4 * |vs|
  {
    if |vs| == 0 then [] else PackBuffer(vs[..|vs| - 1]) + PackedVertex(vs[|vs| - 1])
  }

  /** Packing one more vertex appends its four slots. */
  lemma PackBufferStep(vs: seq<seq<Influence>>, v: nat)
    requires v < |vs|
    ensures PackBuffer(vs[..v + 1]) == PackBuffer(vs[..v]) + PackedVertex(vs[v])
  {
    assert vs[..v + 1][..v] == vs[..v];
  }

  /** Slot `k` of vertex `v` sits at position 4v + k of its buffer's output. */
  lemma {:induction false} PackBufferLayout(vs: seq<seq<Influence>>, v: nat, k: nat)
    requires v < |vs| && k < 4
    ensures PackBuffer(vs)[4 * v + k] == PackedVertex(vs[v])[k]
  {
    var n := |vs| - 1;
    if v < n {
      PackBufferLayout(vs[..n], v, k);
    }
  }

  /** Every vertex's list of one buffer sorted by strength. */
  function SortBuffer(vs: seq<seq<Influence>>): (r: seq<seq<Influence>>)
    ensures |r| == |vs|
  {
    seq(|vs|, v requires 0 <= v < |vs| => SortByStrength(vs[v]))
  }

  /** Every list of the table sorted by strength. */
  function SortTable(t: seq<seq<seq<Influence>>>): (r: seq<seq<seq<Influence>>>)
    ensures SameLayout(t, r)
  {
    seq(|t|, b requires 0 <= b < |t| => SortBuffer(t[b]))
  }

  /** One packed buffer per buffer of the table. */
  function PackTable(t: seq<seq<seq<Influence>>>): (r: seq<seq<WeightInfluence>>)
    ensures |r| == |t|
  {
    seq(|t|, b requires 0 <= b < |t| => PackBuffer(t[b]))
  }

  // ---------------------------------------------------------------- index coupling

  /**
    What a packed slot means: when the table starts empty at vertex `v` of buffer `b`
    and the joints of `order` add their influences from index 0, then after sorting and
    packing, slot `s` of that vertex is unused (index -1) exactly when fewer than s + 1
    influences reach the vertex, and otherwise names a position of `order` whose joint
    carries a weight on that vertex.
   */
  lemma PackedSlotNamesWeight(t: seq<seq<seq<Influence>>>, js: seq<Joint>, order: seq<nat>, b: nat, v: nat, s: nat)
    requires InArena(js, order) && b < |t| && v < |t[b]| && t[b][v] == [] && s < 4
    requires b < 0x1_0000 && v < 0x1_0000
    ensures var slot := PackTable(SortTable(AddInfluences(t, js, order, 0)))[b][4 * v + s];
            && (slot.index == -1 <==> |Contributions(js, order, 0, b, v)| <= s)
            && (slot.index != -1 ==>
                  0 <= slot.index < |order|
                  && exists w | w in js[order[slot.index]].weights :: w.bufferId as int == b && w.vertexId as int == v)
  {
    var added := AddInfluences(t, js, order, 0);
    var contributions := Contributions(js, order, 0, b, v);
    AddInfluencesMeaning(t, js, order, 0, b, v);
    assert added[b][v] == contributions;
    var sorted := SortTable(added);
    var c := sorted[b][v];
    assert c == SortByStrength(contributions);
    assert |c| == |contributions| by {
      assert |multiset(c)| == |multiset(contributions)|;
    }
    PackBufferLayout(sorted[b], v, s);
    assert PackTable(sorted)[b][4 * v + s] == PackedVertex(c)[s];
    if s < Bound(|c|) {
      var x: Influence := c[s];
      assert x in multiset(contributions);
      ContributionsMeaning(js, order, 0, b, v, x);
      assert Weight(b as u16, v as u16, x.strength) in js[order[x.index]].weights;
    }
  }
}
