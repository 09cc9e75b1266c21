/**
  Keyframe tracks of a joint (ISkinnedMesh::SPositionKey, SScaleKey, SRotationKey), the
  search-with-hint that `getFrameData` runs on each track, the interpolation it applies to
  the key it finds, and the boundary fill `finalize` applies to every track.
 */
module Keyframes {
  import opened Vector3d
  import Q = Quaternions

  /** One animation key: a frame number and the value the track takes there. */
  datatype Key<V> = Key(frame: real, value: V)

  /** The three tracks of a joint: PositionKeys, ScaleKeys and RotationKeys. */
  datatype Tracks = Tracks(position: seq<Key<Vec3>>, scale: seq<Key<Vec3>>, rotation: seq<Key<Q.Quat>>)

  /** A joint's decomposed animated pose: Animatedposition, Animatedscale, Animatedrotation. */
  datatype Pose = Pose(position: Vec3, scale: Vec3, rotation: Q.Quat)

  /** A joint's search cursors: positionHint, scaleHint, rotationHint. */
  datatype Hints = Hints(position: int, scale: int, rotation: int)

  const NoHints: Hints := Hints(-1, -1, -1)

  /** Frames never decrease along the track (what the scan's comment assumes). */
  predicate Sorted<V>(keys: seq<Key<V>>) {
    forall i, k | 0 <= i < k < |keys| :: keys[i].frame <= keys[k].frame
  }

  /** Frames strictly increase along the track. */
  predicate StrictlySorted<V>(keys: seq<Key<V>>) {
    forall i, k | 0 <= i < k < |keys| :: keys[i].frame < keys[k].frame
  }

  predicate HasKeys(t: Tracks) {
    |t.position| > 0 || |t.scale| > 0 || |t.rotation| > 0
  }

  // ---------------------------------------------------------------- search

  /**
    The full scan: the first key whose frame is at least `frame`, or -1 when there is none.
   */
  function FirstAtLeast<V>(keys: seq<Key<V>>, frame: real): (r: int)
    ensures -1 <= r < |keys|
    ensures r >= 0 ==> keys[r].frame >= frame
    ensures forall k | 0 <= k < |keys| && (r < 0 || k < r) :: keys[k].frame < frame
    decreases |keys|
  {
    if |keys| == 0 then -1
    else if keys[0].frame >= frame then 0
    else
      var r := FirstAtLeast(keys[1..], frame);
      if r < 0 then -1 else r + 1
  }

  /** The first hint check: the key at `hint` and its predecessor bracket `frame`. */
  predicate HintHit<V>(keys: seq<Key<V>>, frame: real, hint: int) {
    0 < hint < |keys| && keys[hint].frame >= frame && keys[hint - 1].frame < frame
  }

  /** The second hint check: the key after `hint` and the key at `hint` bracket `frame`. */
  predicate NextHit<V>(keys: seq<Key<V>>, frame: real, hint: int) {
    0 <= hint && hint + 1 < |keys| && keys[hint + 1].frame >= frame && keys[hint].frame < frame
  }

  /** Key `i` and its predecessor bracket `frame`. */
  predicate Brackets<V>(keys: seq<Key<V>>, frame: real, i: int) {
    0 < i < |keys| && keys[i - 1].frame < frame <= keys[i].frame
  }

  /**
    The index the search settles on: the hint, the key after the hint, or else the result
    of the full scan. Whatever the hint, a positive index brackets the query with its
    predecessor, index 0 is only found when the first key is at or after the query, and
    -1 exactly when every key is before the query.
   */
  function FoundIndex<V>(keys: seq<Key<V>>, frame: real, hint: int): (r: int)
    ensures -1 <= r < |keys|
    ensures r > 0 ==> Brackets(keys, frame, r)
    ensures r == 0 ==> frame <= keys[0].frame
    ensures r == -1 <==> forall k | 0 <= k < |keys| :: keys[k].frame < frame
  {
    if HintHit(keys, frame, hint) then hint
    else if NextHit(keys, frame, hint) then hint + 1
    else FirstAtLeast(keys, frame)
  }

  /** The hint after the search: the found index, or the old hint when nothing was found. */
  function NextHint<V>(keys: seq<Key<V>>, frame: real, hint: int): int {
    var found := FoundIndex(keys, frame, hint);
    if found >= 0 then found else hint
  }

  /**
    The search of `getFrameData` on one track (the same code is repeated there for the
    position, scale and rotation tracks): check the hint, then the key after it, then
    scan from the start.
   */
  method FindKey<V>(keys: seq<Key<V>>, frame: real, hint: int) returns (found: int, newHint: int)
    ensures found == FoundIndex(keys, frame, hint)
    ensures newHint == NextHint(keys, frame, hint)
  {
    found := -1;
    newHint := hint;
    if newHint >= 0 && newHint < |keys| {
      if newHint > 0 && keys[newHint].frame >= frame && keys[newHint - 1].frame < frame {
        found := newHint;
      } else if newHint + 1 < |keys| {
        if keys[newHint + 1].frame >= frame && keys[newHint].frame < frame {
          newHint := newHint + 1;
          found := newHint;
        }
      }
    }
    if found == -1 {
      var i := 0;
      while i < |keys|
        invariant 0 <= i <= |keys|
        invariant found == -1 && newHint == hint
        invariant forall k | 0 <= k < i :: keys[k].frame < frame
      {
        if keys[i].frame >= frame {
          found := i;
          newHint := i;
          break;
        }
        i := i + 1;
      }
    }
  }

  /**
    The hint is a pure optimisation: on a track sorted by frame, the index the search
    settles on is the full scan's, whatever the hint was.
   */
  lemma HintIsPureOptimisation<V>(keys: seq<Key<V>>, frame: real, hint: int)
    requires Sorted(keys)
    ensures FoundIndex(keys, frame, hint) == FirstAtLeast(keys, frame)
  {
    var f := FoundIndex(keys, frame, hint);
    var s := FirstAtLeast(keys, frame);
    if f > 0 {
      forall k | 0 <= k < f
        ensures keys[k].frame < frame
      {
        assert keys[k].frame <= keys[f - 1].frame;
      }
    }
  }

  // ---------------------------------------------------------------- interpolation

  /**
    The position/scale formula: `a` is the found key (KeyA), `b` its predecessor (KeyB);
    ((b - a) / (fd1 + fd2)) * fd1 + a with fd1 = frame - a.frame, fd2 = b.frame - frame.
   */
  function InterpolateVec(a: Key<Vec3>, b: Key<Vec3>, frame: real): Vec3
    requires a.frame != b.frame
  {
    var fd1 := frame - a.frame;
    var fd2 := b.frame - frame;
    Add(Scale(Div(Sub(b.value, a.value), fd1 + fd2), fd1), a.value)
  }

  /** The time handed to `slerp` for rotations: fd1 / (fd1 + fd2). */
  function RotationTime(a: Key<Q.Quat>, b: Key<Q.Quat>, frame: real): real
    requires a.frame != b.frame
  {
    var fd1 := frame - a.frame;
    var fd2 := b.frame - frame;
    fd1 / (fd1 + fd2)
  }

  /** The value a vector track yields once the search has found `found`. */
  function SampleVec(keys: seq<Key<Vec3>>, found: int, frame: real, current: Vec3): Vec3
    requires -1 <= found < |keys|
    requires found > 0 ==> Brackets(keys, frame, found)
  {
    if found == -1 then current
    else if found == 0 then keys[0].value
    else InterpolateVec(keys[found], keys[found - 1], frame)
  }

  /** The value a rotation track yields once the search has found `found`. */
  function SampleRot(keys: seq<Key<Q.Quat>>, found: int, frame: real, current: Q.Quat,
                     trig: Q.SlerpWeights): Q.Quat
    requires -1 <= found < |keys|
    requires found > 0 ==> Brackets(keys, frame, found)
  {
    if found == -1 then current
    else if found == 0 then keys[0].value
    else
      var t := RotationTime(keys[found], keys[found - 1], frame);
      Q.SlerpOf(keys[found].value, keys[found - 1].value, t, Q.DefaultSlerpThreshold, trig)
  }

  /** Search and sample a vector track. */
  function LookupVec(keys: seq<Key<Vec3>>, frame: real, hint: int, current: Vec3): Vec3 {
    SampleVec(keys, FoundIndex(keys, frame, hint), frame, current)
  }

  /** Search and sample a rotation track. */
  function LookupRot(keys: seq<Key<Q.Quat>>, frame: real, hint: int, current: Q.Quat,
                     trig: Q.SlerpWeights): Q.Quat {
    SampleRot(keys, FoundIndex(keys, frame, hint), frame, current, trig)
  }

  /** What `getFrameData` yields for a joint whose animation source carries `t`. */
  function FrameData(t: Tracks, frame: real, pose: Pose, hints: Hints, trig: Q.SlerpWeights): (Pose, Hints) {
    (Pose(LookupVec(t.position, frame, hints.position, pose.position),
          LookupVec(t.scale, frame, hints.scale, pose.scale),
          LookupRot(t.rotation, frame, hints.rotation, pose.rotation, trig)),
     Hints(NextHint(t.position, frame, hints.position),
           NextHint(t.scale, frame, hints.scale),
           NextHint(t.rotation, frame, hints.rotation)))
  }

  /**
    The interpolation never divides by zero: at the found index the divisor fd1 + fd2 is
    the predecessor's frame minus the found key's frame, which is negative.
   */
  lemma DivisorNegative<V>(keys: seq<Key<V>>, frame: real, hint: int)
    requires FoundIndex(keys, frame, hint) > 0
    ensures var i := FoundIndex(keys, frame, hint);
            (frame - keys[i].frame) + (keys[i - 1].frame - frame) < 0.0
  {
  }

  /** Interpolating at the found key's frame gives its value, at the predecessor's frame the predecessor's. */
  lemma InterpolateVecAtKeys(a: Key<Vec3>, b: Key<Vec3>)
    requires a.frame != b.frame
    ensures InterpolateVec(a, b, a.frame) == a.value
    ensures InterpolateVec(a, b, b.frame) == b.value
  {
    var d := b.frame - a.frame;
    assert (b.value.x - a.value.x) / d * d == b.value.x - a.value.x;
    assert (b.value.y - a.value.y) / d * d == b.value.y - a.value.y;
    assert (b.value.z - a.value.z) / d * d == b.value.z - a.value.z;
  }

  /**
    The time handed to `slerp` lies in [0, 1) when the keys bracket the query, and is 0
    exactly at the found key's frame.
   */
  lemma RotationTimeInRange(a: Key<Q.Quat>, b: Key<Q.Quat>, frame: real)
    requires b.frame < frame <= a.frame
    ensures 0.0 <= RotationTime(a, b, frame) < 1.0
    ensures RotationTime(a, b, frame) == 0.0 <==> frame == a.frame
  {
    var d := b.frame - a.frame;
    var n := frame - a.frame;
    var t := RotationTime(a, b, frame);
    assert d < 0.0 && d < n <= 0.0;
    assert t == n / d;
    assert t * d == n;
    if t < 0.0 || t >= 1.0 {
      assert false;
    }
  }

  /**
    Results never depend on the hints: on sorted tracks, `getFrameData` yields the same
    pose whatever hints it starts from.
   */
  lemma FrameDataIgnoresHints(t: Tracks, frame: real, pose: Pose, h1: Hints, h2: Hints,
                              trig: Q.SlerpWeights)
    requires Sorted(t.position) && Sorted(t.scale) && Sorted(t.rotation)
    ensures FrameData(t, frame, pose, h1, trig).0 == FrameData(t, frame, pose, h2, trig).0
  {
    HintIsPureOptimisation(t.position, frame, h1.position);
    HintIsPureOptimisation(t.position, frame, h2.position);
    HintIsPureOptimisation(t.scale, frame, h1.scale);
    HintIsPureOptimisation(t.scale, frame, h2.scale);
    HintIsPureOptimisation(t.rotation, frame, h1.rotation);
    HintIsPureOptimisation(t.rotation, frame, h2.rotation);
  }

  /** Every key of the track comes before `frame`: the search finds nothing. */
  predicate AllBefore<V>(keys: seq<Key<V>>, frame: real) {
    forall k | 0 <= k < |keys| :: keys[k].frame < frame
  }

  /**
    A query past the last key of a track (or on an empty track) leaves the caller's value
    and the hint of that track as they were, for the position, scale and rotation tracks
    alike.
   */
  lemma NoKeyKeepsValue(t: Tracks, frame: real, pose: Pose, hints: Hints, trig: Q.SlerpWeights)
    ensures var r := FrameData(t, frame, pose, hints, trig);
            && (AllBefore(t.position, frame) ==> r.0.position == pose.position && r.1.position == hints.position)
            && (AllBefore(t.scale, frame) ==> r.0.scale == pose.scale && r.1.scale == hints.scale)
            && (AllBefore(t.rotation, frame) ==> r.0.rotation == pose.rotation && r.1.rotation == hints.rotation)
  {
  }

  /**
    Boundary exactness: on a strictly sorted track, a query at a key's frame yields that
    key's value, whatever the hint.
   */
  lemma LookupAtKeyFrame(keys: seq<Key<Vec3>>, i: nat, hint: int, current: Vec3)
    requires StrictlySorted(keys) && i < |keys|
    ensures LookupVec(keys, keys[i].frame, hint, current) == keys[i].value
  {
    HintIsPureOptimisation(keys, keys[i].frame, hint);
    var f := FirstAtLeast(keys, keys[i].frame);
    assert f == i;
    if i > 0 {
      InterpolateVecAtKeys(keys[i], keys[i - 1]);
    }
  }

  /**
    Boundary exactness for rotations: on a strictly sorted track, a query at the first
    key's frame yields that key, and a query at a later key's frame yields `slerp` from
    that key towards its predecessor at time 0. In slerp's linear branch that is the key
    itself, negated when its dot product with the predecessor is negative.
   */
  lemma RotationAtKeyFrame(keys: seq<Key<Q.Quat>>, i: nat, hint: int, current: Q.Quat, trig: Q.SlerpWeights)
    requires StrictlySorted(keys) && i < |keys|
    ensures i == 0 ==> LookupRot(keys, keys[i].frame, hint, current, trig) == keys[0].value
    ensures i > 0 ==> LookupRot(keys, keys[i].frame, hint, current, trig)
                      == Q.SlerpOf(keys[i].value, keys[i - 1].value, 0.0, Q.DefaultSlerpThreshold, trig)
    ensures i > 0 ==>
              var q := keys[i].value;
              var p := keys[i - 1].value;
              var a := if Q.Dot(q, p) < 0.0 then Q.ScaleBy(q, -1.0) else q;
              Q.Dot(a, p) > 1.0 - Q.DefaultSlerpThreshold ==> LookupRot(keys, keys[i].frame, hint, current, trig) == a
  {
    HintIsPureOptimisation(keys, keys[i].frame, hint);
    var f := FirstAtLeast(keys, keys[i].frame);
    assert f == i;
    if i > 0 {
      var q, p := keys[i].value, keys[i - 1].value;
      RotationTimeInRange(keys[i], keys[i - 1], keys[i].frame);
      Q.SlerpTakesShortArc(q, p, 0.0, Q.DefaultSlerpThreshold, trig);
      var a := if Q.Dot(q, p) < 0.0 then Q.ScaleBy(q, -1.0) else q;
      Q.LerpEndPoints(a, p);
    }
  }

  /** Halfway between two keys the value is the mean of theirs. */
  lemma InterpolateVecMidpoint(a: Key<Vec3>, b: Key<Vec3>)
    requires a.frame != b.frame
    ensures InterpolateVec(a, b, (a.frame + b.frame) / 2.0) == Scale(Add(a.value, b.value), 0.5)
  {
    var d := b.frame - a.frame;
    assert (b.value.x - a.value.x) / d * (d / 2.0) == (b.value.x - a.value.x) / 2.0;
    assert (b.value.y - a.value.y) / d * (d / 2.0) == (b.value.y - a.value.y) / 2.0;
    assert (b.value.z - a.value.z) / d * (d / 2.0) == (b.value.z - a.value.z) / 2.0;
  }

  // ---------------------------------------------------------------- boundary fill

  /**
    The key checks of `finalize` step back whenever a key repeats the values of the two
    around it or a frame does not increase, and with the erasures they were written for
    disabled they then never end. A track passes them only when its frames strictly
    increase and no three consecutive keys hold the same value.
   */
  predicate Settled<V(==)>(keys: seq<Key<V>>) {
    && StrictlySorted(keys)
    && forall j | 0 <= j < |keys| - 2 :: !(keys[j].value == keys[j + 1].value == keys[j + 2].value)
  }

  predicate TracksSettled(t: Tracks) {
    Settled(t.position) && Settled(t.scale) && Settled(t.rotation)
  }

  /**
    `finalize`'s "fill empty keyframe areas" on one track: the first key's frame becomes
    0, and when the last key is not at `frames` a copy of it at `frames` is appended.
   */
  function FillTrack<V>(keys: seq<Key<V>>, frames: real): seq<Key<V>> {
    if |keys| == 0 then keys
    else
      var first := if keys[0].frame != 0.0 then keys[0 := keys[0].(frame := 0.0)] else keys;
      var back := first[|first| - 1];
      if back.frame != frames then first + [back.(frame := frames)] else first
  }

  function FillTracks(t: Tracks, frames: real): Tracks {
    Tracks(FillTrack(t.position, frames), FillTrack(t.scale, frames), FillTrack(t.rotation, frames))
  }

  /**
    The fill starts the track at 0 and ends it at `frames`, inserts no key in front,
    appends at most one key (a copy of the last value), and changes no value and no
    interior frame. An empty track stays empty.
   */
  lemma FillTrackShape<V>(keys: seq<Key<V>>, frames: real)
    ensures |keys| == 0 ==> FillTrack(keys, frames) == keys
    ensures var r := FillTrack(keys, frames);
            |keys| > 0 ==>
              && |keys| <= |r| <= |keys| + 1
              && r[0].frame == 0.0
              && r[|r| - 1].frame == frames
              && (forall i | 0 <= i < |keys| :: r[i].value == keys[i].value)
              && (forall i | 0 < i < |keys| :: r[i].frame == keys[i].frame)
              && (|r| == |keys| + 1 ==> r[|keys|].value == keys[|keys| - 1].value)
  {
  }

  /**
    On a strictly sorted track whose frames already lie in [0, frames], the fill keeps
    the track strictly sorted and makes it span exactly [0, frames].
   */
  lemma FillTrackKeepsOrder<V>(keys: seq<Key<V>>, frames: real)
    requires StrictlySorted(keys) && |keys| > 0
    requires 0.0 <= keys[0].frame && keys[|keys| - 1].frame <= frames
    ensures StrictlySorted(FillTrack(keys, frames))
    ensures forall i | 0 <= i < |FillTrack(keys, frames)| ::
              0.0 <= FillTrack(keys, frames)[i].frame <= frames
  {
    var first := if keys[0].frame != 0.0 then keys[0 := keys[0].(frame := 0.0)] else keys;
    assert StrictlySorted(first) by {
      forall i, k | 0 <= i < k < |first|
        ensures first[i].frame < first[k].frame
      {
        assert keys[0].frame <= keys[i].frame;
      }
    }
    forall i | 0 <= i < |first|
      ensures 0.0 <= first[i].frame <= frames
    {
      assert keys[0].frame <= keys[i].frame <= keys[|keys| - 1].frame;
    }
  }
}
