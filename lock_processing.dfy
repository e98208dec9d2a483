/**
 * Lock-aware styling: the segment split around lock markers, the ANSI escape
 * scanner, the rendering specification and the imperative `processLocks`.
 */

module LockProcessing {
  import opened Wrappers
  import opened Text
  import opened Styles

  // ------------------ Splitting around lock markers ------------------

  /**
   * Position `i` is a split point of `msg`: a zero-width match of the
   * look-ahead for LOCK_START or the look-behind for LOCK_END. A match at the
   * very start produces no leading empty segment, and one at the very end only
   * a trailing empty segment, which the split discards.
   */
  predicate IsCut(msg: string, i: nat) {
    0 < i < |msg| && (StartsAt(msg, i, LOCK_START) || EndsAt(msg, i, LOCK_END))
  }

  /** The first split point after `from`, or the end of `msg`. */
  function NextCut(msg: string, from: nat): (c: nat)
    requires from < |msg|
    ensures from < c <= |msg|
    ensures c < |msg| ==> IsCut(msg, c)
    ensures forall j :: from < j < c ==> !IsCut(msg, j)
    decreases |msg| - from
  {
    if from + 1 == |msg| || IsCut(msg, from + 1) then from + 1 else NextCut(msg, from + 1)
  }

  /** The segments of `msg[start..]`. */
  function SplitFrom(msg: string, start: nat): (segs: seq<string>)
    requires start < |msg|
    decreases |msg| - start
  {
    var c := NextCut(msg, start);
    if c == |msg| then [msg[start..]] else [msg[start..c]] + SplitFrom(msg, c)
  }

  /** `msg.split("(?=LOCK_START)|(?<=LOCK_END)")`; the empty string splits into one empty segment. */
  function Split(msg: string): (segs: seq<string>) {
    if msg == "" then [""] else SplitFrom(msg, 0)
  }

  function Flatten(ss: seq<string>): (s: string) {
    if ss == [] then "" else ss[0] + Flatten(ss[1..])
  }

  /** The positions, counted from `start`, at which one segment of `segs` ends and the next begins. */
  function Boundaries(segs: seq<string>, start: nat): (bs: set<nat>) {
    set k | 0 < k < |segs| :: start + Offset(segs, k)
  }

  function CutsAfter(msg: string, start: nat): (cuts: set<nat>) {
    set i | start < i < |msg| && IsCut(msg, i)
  }

  lemma {:induction false} FlattenCons(h: string, xs: seq<string>)
    ensures Flatten([h] + xs) == h + Flatten(xs)
  {
    assert ([h] + xs)[1..] == xs;
  }

  lemma {:induction false} FlattenAppend(xs: seq<string>, ys: seq<string>)
    ensures Flatten(xs + ys) == Flatten(xs) + Flatten(ys)
    decreases |xs|
  {
    if xs == [] {
      assert xs + ys == ys;
    } else {
      assert (xs + ys)[1..] == xs[1..] + ys;
      FlattenAppend(xs[1..], ys);
    }
  }

  /** Putting one more segment in front of a flattened tail. */
  lemma {:induction false} FlattenStep(msg: string, start: nat, c: nat, segs: seq<string>, rest: seq<string>)
    requires start < c <= |msg| && segs == [msg[start..c]] + rest
    requires Flatten(rest) == msg[c..]
    ensures Flatten(segs) == msg[start..]
  {
    FlattenCons(msg[start..c], rest);
    assert msg[start..] == msg[start..c] + msg[c..];
  }

  /** A non-empty head in front of non-empty segments. */
  lemma {:induction false} NonEmptyStep(h: string, segs: seq<string>, rest: seq<string>)
    requires h != "" && segs == [h] + rest
    requires forall k :: 0 <= k < |rest| ==> rest[k] != ""
    ensures forall k :: 0 <= k < |segs| ==> segs[k] != ""
  {
    forall k | 0 <= k < |segs| ensures segs[k] != "" {
      if k > 0 {
        assert segs[k] == rest[k - 1];
      }
    }
  }

  /** The recursive step of `SplitFromFlatten`, from the next split point back to `start`. */
  lemma {:induction false} FlattenFrom(msg: string, start: nat, c: nat)
    requires start < |msg| && c == NextCut(msg, start) && c < |msg|
    requires Flatten(SplitFrom(msg, c)) == msg[c..]
    requires forall k :: 0 <= k < |SplitFrom(msg, c)| ==> SplitFrom(msg, c)[k] != ""
    ensures Flatten(SplitFrom(msg, start)) == msg[start..]
    ensures forall k :: 0 <= k < |SplitFrom(msg, start)| ==> SplitFrom(msg, start)[k] != ""
  {
    SplitFromStep(msg, start, c);
    FlattenStep(msg, start, c, SplitFrom(msg, start), SplitFrom(msg, c));
    NonEmptyStep(msg[start..c], SplitFrom(msg, start), SplitFrom(msg, c));
  }

  /** The segments of `msg[start..]` concatenate back to it and none is empty. */
  lemma {:induction false} SplitFromFlatten(msg: string, start: nat)
    requires start < |msg|
    ensures Flatten(SplitFrom(msg, start)) == msg[start..]
    ensures forall k :: 0 <= k < |SplitFrom(msg, start)| ==> SplitFrom(msg, start)[k] != ""
    decreases |msg| - start
  {
    var c := NextCut(msg, start);
    if c == |msg| {
      SplitFromLast(msg, start);
      FlattenCons(msg[start..|msg|], []);
      assert msg[start..] == msg[start..|msg|];
    } else {
      SplitFromFlatten(msg, c);
      FlattenFrom(msg, start, c);
    }
  }

  /** Where segment `k` of `segs` starts, relative to the first: the lengths of the segments before it. */
  function Offset(segs: seq<string>, k: nat): (o: nat)
    requires k <= |segs|
  {
    if k == 0 then 0 else Offset(segs, k - 1) + |segs[k - 1]|
  }

  /** The offset of segment `k` is the length of everything before it. */
  lemma {:induction false} OffsetIsPrefixLength(segs: seq<string>, k: nat)
    requires k <= |segs|
    ensures Offset(segs, k) == |Flatten(segs[..k])|
  {
    if k > 0 {
      OffsetIsPrefixLength(segs, k - 1);
      assert segs[..k] == segs[..k - 1] + [segs[k - 1]];
      FlattenAppend(segs[..k - 1], [segs[k - 1]]);
      FlattenCons(segs[k - 1], []);
    }
  }

  lemma {:induction false} OffsetCons(h: string, rest: seq<string>, k: nat)
    requires k <= |rest|
    ensures Offset([h] + rest, k + 1) == |h| + Offset(rest, k)
  {
    var segs := [h] + rest;
    if k == 0 {
      assert segs[0] == h;
    } else {
      OffsetCons(h, rest, k - 1);
      assert segs[k] == rest[k - 1];
    }
  }

  /** Every boundary of `segs`, placed at `start`, is a split point of `msg` past `start`. */
  predicate CutBoundaries(msg: string, start: nat, segs: seq<string>) {
    forall k :: 0 < k < |segs| ==> 0 < Offset(segs, k) && IsCut(msg, start + Offset(segs, k))
  }

  /** The boundaries after one more leading segment are its end and the tail's boundaries, shifted. */
  lemma {:induction false} BoundaryCutsStep(msg: string, start: nat, c: nat, segs: seq<string>, h: string, rest: seq<string>)
    requires start < c < |msg| && IsCut(msg, c)
    requires segs == [h] + rest && |h| == c - start
    requires CutBoundaries(msg, c, rest)
    ensures CutBoundaries(msg, start, segs)
  {
    forall k | 0 < k < |segs| ensures 0 < Offset(segs, k) && IsCut(msg, start + Offset(segs, k)) {
      BoundaryCutAt(msg, start, c, segs, h, rest, k);
    }
  }

  lemma {:induction false} BoundaryCutAt(msg: string, start: nat, c: nat, segs: seq<string>, h: string, rest: seq<string>, k: nat)
    requires start < c < |msg| && IsCut(msg, c)
    requires segs == [h] + rest && |h| == c - start
    requires CutBoundaries(msg, c, rest)
    requires 0 < k < |segs|
    ensures 0 < Offset(segs, k) && IsCut(msg, start + Offset(segs, k))
  {
    OffsetCons(h, rest, k - 1);
    if k > 1 {
      assert 0 < k - 1 < |rest|;
      assert IsCut(msg, c + Offset(rest, k - 1));
    } else {
      assert Offset(rest, 0) == 0;
    }
  }

  /** The recursive step of `BoundariesAreCuts`, from the next split point back to `start`. */
  lemma {:induction false} BoundariesFrom(msg: string, start: nat, c: nat)
    requires start < |msg| && c == NextCut(msg, start) && c < |msg|
    requires CutBoundaries(msg, c, SplitFrom(msg, c))
    ensures CutBoundaries(msg, start, SplitFrom(msg, start))
  {
    SplitFromStep(msg, start, c);
    BoundaryCutsStep(msg, start, c, SplitFrom(msg, start), msg[start..c], SplitFrom(msg, c));
  }

  /** Without a further split point there is a single segment, so no boundary. */
  lemma {:induction false} BoundariesLast(msg: string, start: nat)
    requires start < |msg| && NextCut(msg, start) == |msg|
    ensures |SplitFrom(msg, start)| == 1
  {
    SplitFromLast(msg, start);
  }

  lemma {:induction false} BoundariesAreCuts(msg: string, start: nat)
    requires start < |msg|
    ensures CutBoundaries(msg, start, SplitFrom(msg, start))
    decreases |msg| - start
  {
    var c := NextCut(msg, start);
    if c < |msg| {
      BoundariesAreCuts(msg, c);
      BoundariesFrom(msg, start, c);
    } else {
      BoundariesLast(msg, start);
    }
  }

  /** A split point at or after the first one is the end of the leading segment or a boundary of the tail, shifted. */
  lemma {:induction false} CutBoundaryStep(msg: string, start: nat, c: nat, i: nat, segs: seq<string>, h: string, rest: seq<string>)
    requires start < c <= i && segs == [h] + rest && rest != [] && |h| == c - start
    requires i == c || exists k :: 0 < k < |rest| && i == c + Offset(rest, k)
    ensures exists k :: 0 < k < |segs| && i == start + Offset(segs, k)
  {
    if i == c {
      OffsetCons(h, rest, 0);
      assert i == start + Offset(segs, 1);
    } else {
      var k :| 0 < k < |rest| && i == c + Offset(rest, k);
      OffsetCons(h, rest, k);
      assert i == start + Offset(segs, k + 1);
    }
  }

  lemma {:induction false} CutsAreBoundaries(msg: string, start: nat, i: nat)
    requires start < i < |msg| && IsCut(msg, i)
    ensures exists k :: 0 < k < |SplitFrom(msg, start)| && i == start + Offset(SplitFrom(msg, start), k)
    decreases |msg| - start
  {
    var c := NextCut(msg, start);
    SplitFromStep(msg, start, c);
    if i != c {
      CutsAreBoundaries(msg, c, i);
    }
    CutBoundaryStep(msg, start, c, i, SplitFrom(msg, start), msg[start..c], SplitFrom(msg, c));
  }

  /** The boundaries between the segments of `msg[start..]` are exactly its split points. */
  lemma {:induction false} SplitFromBoundaries(msg: string, start: nat)
    requires start < |msg|
    ensures Boundaries(SplitFrom(msg, start), start) == CutsAfter(msg, start)
  {
    var segs := SplitFrom(msg, start);
    BoundariesAreCuts(msg, start);
    BoundariesWithinCuts(msg, start, segs);
    CutsWithinBoundaries(msg, start);
  }

  lemma {:induction false} BoundariesWithinCuts(msg: string, start: nat, segs: seq<string>)
    requires CutBoundaries(msg, start, segs)
    ensures Boundaries(segs, start) <= CutsAfter(msg, start)
  {
    forall i | i in Boundaries(segs, start) ensures i in CutsAfter(msg, start) {
      var k :| 0 < k < |segs| && i == start + Offset(segs, k);
    }
  }

  lemma {:induction false} CutsWithinBoundaries(msg: string, start: nat)
    requires start < |msg|
    ensures CutsAfter(msg, start) <= Boundaries(SplitFrom(msg, start), start)
  {
    forall i | i in CutsAfter(msg, start) ensures i in Boundaries(SplitFrom(msg, start), start) {
      CutsAreBoundaries(msg, start, i);
    }
  }

  /**
   * Splitting concatenates back to the message; a non-empty message has no
   * empty segment; the boundaries are exactly the split points.
   */
  lemma {:induction false} SplitSemantics(msg: string)
    ensures Flatten(Split(msg)) == msg
    ensures msg == "" ==> Split(msg) == [""]
    ensures msg != "" ==> forall k :: 0 <= k < |Split(msg)| ==> Split(msg)[k] != ""
    ensures Boundaries(Split(msg), 0) == CutsAfter(msg, 0)
  {
    if msg == "" {
      FlattenCons("", []);
      assert Boundaries([""], 0) == {};
    } else {
      SplitFromFlatten(msg, 0);
      SplitFromBoundaries(msg, 0);
    }
  }

  /** `NextCut` is determined by its contract. */
  lemma {:induction false} NextCutUnique(msg: string, from: nat, x: nat)
    requires from < x <= |msg|
    requires x < |msg| ==> IsCut(msg, x)
    requires forall j :: from < j < x ==> !IsCut(msg, j)
    ensures NextCut(msg, from) == x
  {
  }

  /** The characters of a trailing LOCK_END after its escape are not escapes. */
  lemma {:induction false} LockEndTail(a: string, i: nat)
    requires EndsAt(a, |a|, LOCK_END)
    requires |a| - 7 < i < |a|
    ensures a[i] != ESC
  {
    MarkerShape(LOCK_END);
    assert a[|a| - 7..][i - (|a| - 7)] == a[i];
  }

  /** Both halves are non-empty and a lock boundary separates them: `a` ends with LOCK_END or `b` starts with LOCK_START. */
  predicate JoinsAtCut(a: string, b: string) {
    a != "" && b != "" && (EndsAt(a, |a|, LOCK_END) || StartsAt(b, 0, LOCK_START))
  }

  /** A split point inside `a` is one of `a + b` and vice versa, given a lock boundary at the join. */
  lemma {:induction false} CutInA(a: string, b: string, i: nat)
    requires JoinsAtCut(a, b)
    requires 0 < i < |a|
    ensures IsCut(a + b, i) <==> IsCut(a, i)
  {
    var s := a + b;
    if i + 7 <= |a| {
      assert s[i..i + 7] == a[i..i + 7];
    } else {
      NoStraddle(a, b, i);
    }
    if i >= 7 {
      assert s[i - 7..i] == a[i - 7..i];
    }
  }

  /** The join itself is a split point. */
  lemma {:induction false} CutAtJoin(a: string, b: string)
    requires JoinsAtCut(a, b)
    ensures IsCut(a + b, |a|)
  {
    var s := a + b;
    if EndsAt(a, |a|, LOCK_END) {
      assert s[|a| - 7..|a|] == a[|a| - 7..|a|];
      assert EndsAt(s, |a|, LOCK_END);
    } else {
      assert s[|a|..|a| + 7] == b[0..7];
      assert StartsAt(s, |a|, LOCK_START);
    }
  }

  /** A split point inside `b` is one of `a + b`, shifted, and vice versa. */
  lemma {:induction false} CutInB(a: string, b: string, i: nat)
    requires JoinsAtCut(a, b)
    requires |a| < i < |a| + |b|
    ensures IsCut(a + b, i) <==> IsCut(b, i - |a|)
  {
    var s := a + b;
    if i + 7 <= |s| {
      assert s[i..i + 7] == b[i - |a|..i - |a| + 7];
    }
    if i - |a| >= 7 {
      assert s[i - 7..i] == b[i - |a| - 7..i - |a|];
    } else if i >= 7 {
      NoStraddle(a, b, i - 7);
    }
  }

  /** No marker occurrence starts in `a` and runs past the join. */
  lemma {:induction false} NoStraddle(a: string, b: string, q: nat)
    requires JoinsAtCut(a, b)
    requires q < |a| < q + 7
    ensures !StartsAt(a + b, q, LOCK_START) && !StartsAt(a + b, q, LOCK_END)
  {
    var s := a + b;
    MarkerShape(LOCK_START);
    MarkerShape(LOCK_END);
    if EndsAt(a, |a|, LOCK_END) {
      LockEndTail(a, q);
      assert s[q] == a[q];
    } else {
      assert s[|a|] == b[0] == LOCK_START[0];
    }
    if StartsAt(s, q, LOCK_START) {
      OccurrenceShape(s, q, LOCK_START);
    }
    if StartsAt(s, q, LOCK_END) {
      OccurrenceShape(s, q, LOCK_END);
    }
  }

  /** One step of the split, unfolded at a split point `c`. */
  lemma {:induction false} SplitFromStep(msg: string, start: nat, c: nat)
    requires start < |msg| && c == NextCut(msg, start) && c < |msg|
    ensures SplitFrom(msg, start) == [msg[start..c]] + SplitFrom(msg, c)
  {
  }

  /** The last step of the split. */
  lemma {:induction false} SplitFromLast(msg: string, start: nat)
    requires start < |msg| && NextCut(msg, start) == |msg|
    ensures SplitFrom(msg, start) == [msg[start..|msg|]]
  {
    assert msg[start..] == msg[start..|msg|];
  }

  /** Inside `a`, the next split point of `a + b` is that of `a`, with the join standing in for the end of `a`. */
  lemma {:induction false} NextCutInA(a: string, b: string, j: nat)
    requires JoinsAtCut(a, b)
    requires j < |a|
    ensures NextCut(a + b, j) == NextCut(a, j)
  {
    var ca := NextCut(a, j);
    forall i | j < i < ca ensures !IsCut(a + b, i) {
      CutInA(a, b, i);
    }
    if ca < |a| {
      CutInA(a, b, ca);
    } else {
      CutAtJoin(a, b);
    }
    NextCutUnique(a + b, j, ca);
  }

  /** Inside `b`, the next split point of `a + b` is that of `b`, shifted. */
  lemma {:induction false} NextCutInB(a: string, b: string, j: nat)
    requires JoinsAtCut(a, b)
    requires j < |b|
    ensures NextCut(a + b, |a| + j) == |a| + NextCut(b, j)
  {
    ShiftedCut(a, b, j, NextCut(b, j));
  }

  /** A position with the defining properties of the next split point of `b` is, shifted, that of `a + b`. */
  lemma {:induction false} ShiftedCut(a: string, b: string, j: nat, cb: nat)
    requires JoinsAtCut(a, b)
    requires j < cb <= |b| && (cb < |b| ==> IsCut(b, cb))
    requires forall i :: j < i < cb ==> !IsCut(b, i)
    ensures NextCut(a + b, |a| + j) == |a| + cb
  {
    NoCutsInB(a, b, j, cb);
    EndCutInB(a, b, cb);
    NextCutUnique(a + b, |a| + j, |a| + cb);
  }

  /** A split point of `b` (or its end) is a split point of `a + b` (or its end), shifted. */
  lemma {:induction false} EndCutInB(a: string, b: string, cb: nat)
    requires JoinsAtCut(a, b)
    requires 0 < cb <= |b| && (cb < |b| ==> IsCut(b, cb))
    ensures |a| + cb < |a + b| ==> IsCut(a + b, |a| + cb)
  {
    if cb < |b| {
      CutInB(a, b, |a| + cb);
    }
  }

  /** No split point of `b` between `j` and `cb` means none of `a + b` between the shifted positions. */
  lemma {:induction false} NoCutsInB(a: string, b: string, j: nat, cb: nat)
    requires JoinsAtCut(a, b)
    requires j < cb <= |b|
    requires forall i :: j < i < cb ==> !IsCut(b, i)
    ensures forall i :: |a| + j < i < |a| + cb ==> !IsCut(a + b, i)
  {
    forall i | |a| + j < i < |a| + cb ensures !IsCut(a + b, i) {
      CutInB(a, b, i);
    }
  }

  /** One step of the split of `a + b` inside `a`, given the rest from the next split point. */
  lemma {:induction false} PrefixStep(a: string, b: string, j: nat, ca: nat)
    requires JoinsAtCut(a, b)
    requires j < |a| && ca == NextCut(a, j) && ca < |a|
    requires SplitFrom(a + b, ca) == SplitFrom(a, ca) + SplitFrom(a + b, |a|)
    ensures SplitFrom(a + b, j) == SplitFrom(a, j) + SplitFrom(a + b, |a|)
  {
    var s := a + b;
    var rest := SplitFrom(s, |a|);
    PrefixHead(a, b, j, ca);
    SplitFromStep(a, j, ca);
    assert SplitFrom(a, j) + rest == [a[j..ca]] + (SplitFrom(a, ca) + rest);
    ConsCongruence(SplitFrom(s, j), SplitFrom(a, j) + rest, a[j..ca], SplitFrom(s, ca), a[j..ca], SplitFrom(a, ca) + rest);
  }

  /** Inside `a`, the first segment of `a + b` is that of `a`. */
  lemma {:induction false} PrefixHead(a: string, b: string, j: nat, ca: nat)
    requires JoinsAtCut(a, b)
    requires j < |a| && ca == NextCut(a, j) && ca < |a|
    ensures SplitFrom(a + b, j) == [a[j..ca]] + SplitFrom(a + b, ca)
  {
    var s := a + b;
    NextCutInA(a, b, j);
    SliceLeft(a, b, j, ca);
    SplitFromStep(s, j, ca);
  }

  /** The last segment of `a` ends at the join. */
  lemma {:induction false} PrefixLast(a: string, b: string, j: nat)
    requires JoinsAtCut(a, b)
    requires j < |a| && NextCut(a, j) == |a|
    ensures SplitFrom(a + b, j) == SplitFrom(a, j) + SplitFrom(a + b, |a|)
  {
    var s := a + b;
    var rest := SplitFrom(s, |a|);
    NextCutInA(a, b, j);
    SliceLeft(a, b, j, |a|);
    SplitFromStep(s, j, |a|);
    SplitFromLast(a, j);
    ConsCongruence(SplitFrom(s, j), SplitFrom(a, j) + rest, s[j..|a|], rest, a[j..|a|], rest);
  }

  /** Up to the join, `a + b` splits as `a` does. */
  lemma {:induction false} SplitFromPrefix(a: string, b: string, j: nat)
    requires JoinsAtCut(a, b)
    requires j < |a|
    ensures SplitFrom(a + b, j) == SplitFrom(a, j) + SplitFrom(a + b, |a|)
    decreases |a| - j
  {
    var ca := NextCut(a, j);
    if ca == |a| {
      PrefixLast(a, b, j);
    } else {
      SplitFromPrefix(a, b, ca);
      PrefixStep(a, b, j, ca);
    }
  }

  /** One step of the split of `a + b` inside `b`, given the rest from the next split point. */
  lemma {:induction false} ShiftStep(a: string, b: string, j: nat, cb: nat, x: nat, y: nat)
    requires JoinsAtCut(a, b)
    requires j < |b| && cb == NextCut(b, j) && cb < |b|
    requires x == |a| + j && y == |a| + cb
    requires SplitFrom(a + b, y) == SplitFrom(b, cb)
    ensures SplitFrom(a + b, x) == SplitFrom(b, j)
  {
    var s := a + b;
    ShiftHead(a, b, j, cb, x, y);
    SplitFromStep(b, j, cb);
    ConsCongruence(SplitFrom(s, x), SplitFrom(b, j), b[j..cb], SplitFrom(s, y), b[j..cb], SplitFrom(b, cb));
  }

  /** Inside `b`, the first segment of `a + b` from a shifted position is that of `b`. */
  lemma {:induction false} ShiftHead(a: string, b: string, j: nat, cb: nat, x: nat, y: nat)
    requires JoinsAtCut(a, b)
    requires j < |b| && cb == NextCut(b, j) && cb < |b|
    requires x == |a| + j && y == |a| + cb
    ensures y < |a + b| && SplitFrom(a + b, x) == [b[j..cb]] + SplitFrom(a + b, y)
  {
    var s := a + b;
    NextCutInB(a, b, j);
    SliceRight(a, b, x, y);
    SplitFromStep(s, x, y);
  }

  /** The last segment of `b` is the last of `a + b`. */
  lemma {:induction false} ShiftLast(a: string, b: string, j: nat, x: nat)
    requires JoinsAtCut(a, b)
    requires j < |b| && NextCut(b, j) == |b|
    requires x == |a| + j
    ensures SplitFrom(a + b, x) == SplitFrom(b, j)
  {
    var s := a + b;
    NextCutInB(a, b, j);
    SliceRight(a, b, x, |s|);
    SplitFromLast(s, x);
    SplitFromLast(b, j);
    ConsCongruence(SplitFrom(s, x), SplitFrom(b, j), s[x..|s|], [], b[j..|b|], []);
  }

  /** From the join on, `a + b` splits as `b` does: position `k` of `a + b` is position `j` of `b`. */
  lemma {:induction false} SplitFromShift(a: string, b: string, j: nat, k: nat)
    requires JoinsAtCut(a, b)
    requires j < |b| && k == |a| + j
    ensures SplitFrom(a + b, k) == SplitFrom(b, j)
    decreases |b| - j
  {
    var cb := NextCut(b, j);
    if cb < |b| {
      SplitFromShift(a, b, cb, |a| + cb);
      ShiftStep(a, b, j, cb, k, |a| + cb);
    } else {
      ShiftLast(a, b, j, k);
    }
  }

  /** Splits that join from position 0 join as whole splits. */
  lemma {:induction false} JoinSplits(s: string, a: string, b: string)
    requires s != "" && a != "" && b != ""
    requires SplitFrom(s, 0) == SplitFrom(a, 0) + SplitFrom(b, 0)
    ensures Split(s) == Split(a) + Split(b)
  {
  }

  /** A lock boundary at the join keeps the segments of both halves apart. */
  lemma {:induction false} SplitConcat(a: string, b: string)
    requires a != "" && b != ""
    requires EndsAt(a, |a|, LOCK_END) || StartsAt(b, 0, LOCK_START)
    ensures Split(a + b) == Split(a) + Split(b)
  {
    var s := a + b;
    SplitFromPrefix(a, b, 0);
    SplitFromShift(a, b, 0, |a|);
    Substitute(SplitFrom(s, 0), SplitFrom(a, 0), SplitFrom(s, |a|), SplitFrom(b, 0));
    JoinSplits(s, a, b);
  }

  // ------------------ The ANSI escape scanner ------------------

  /** A character of the class `[0-9;?]`. */
  predicate IsParam(c: char) { IsDigit(c) || c == ';' || c == '?' }

  /** A character of the class `[A-Za-z]`. */
  predicate IsLetter(c: char) { 'A' <= c <= 'Z' || 'a' <= c <= 'z' }

  /** The end of the longest run of parameter characters starting at `q`. */
  function ParamEnd(s: string, q: nat): (k: nat)
    requires q <= |s|
    ensures q <= k <= |s|
    ensures forall j :: q <= j < k ==> IsParam(s[j])
    ensures k < |s| ==> !IsParam(s[k])
    decreases |s| - q
  {
    if q < |s| && IsParam(s[q]) then ParamEnd(s, q + 1) else q
  }

  lemma {:induction false} ParamEndUnique(s: string, q: nat, k: nat)
    requires q <= k <= |s|
    requires forall j :: q <= j < k ==> IsParam(s[j])
    requires k < |s| ==> !IsParam(s[k])
    ensures ParamEnd(s, q) == k
  {
  }

  /**
   * The pattern `ESC \[ [0-9;?]* [A-Za-z]` matches at `p`. The greedy star
   * takes the longest parameter run; giving characters back cannot help, as
   * a parameter character is never a letter.
   */
  predicate IsMatchAt(s: string, p: nat) {
    p + 2 <= |s| && s[p] == ESC && s[p + 1] == '[' &&
    ParamEnd(s, p + 2) < |s| && IsLetter(s[ParamEnd(s, p + 2)])
  }

  /** A string of the pattern's language. */
  predicate IsAnsiSequence(e: string) {
    |e| >= 3 && e[0] == ESC && e[1] == '[' && IsLetter(e[|e| - 1]) &&
    forall j :: 2 <= j < |e| - 1 ==> IsParam(e[j])
  }

  /** `matcher.end()` for a match at `p`. */
  function MatchEnd(s: string, p: nat): (e: nat)
    requires IsMatchAt(s, p)
    ensures p + 3 <= e <= |s|
    ensures IsAnsiSequence(s[p..e])
  {
    var k := ParamEnd(s, p + 2);
    var t := s[p..k + 1];
    assert forall j :: 2 <= j < |t| - 1 ==> t[j] == s[p + j];
    k + 1
  }

  /** The pattern matches at `p` exactly when some string of its language starts there, and then only the one ending at `MatchEnd`. */
  lemma {:induction false} MatchCharacterization(s: string, p: nat, e: nat)
    requires p <= e <= |s|
    ensures IsAnsiSequence(s[p..e]) <==> IsMatchAt(s, p) && e == MatchEnd(s, p)
  {
    if IsAnsiSequence(s[p..e]) {
      var t := s[p..e];
      forall j | p + 2 <= j < e - 1 ensures IsParam(s[j]) {
        assert s[j] == t[j - p];
      }
      assert s[e - 1] == t[|t| - 1];
      ParamEndUnique(s, p + 2, e - 1);
    }
  }

  /** `matcher.find()` from `from`: the leftmost match at or after `from`. */
  function NextMatch(s: string, from: nat): (r: Option<nat>)
    requires from <= |s|
    ensures r.Some? ==> from <= r.value < |s| && IsMatchAt(s, r.value)
    ensures r.Some? ==> forall q :: from <= q < r.value ==> !IsMatchAt(s, q)
    ensures r.None? ==> forall q :: from <= q < |s| ==> !IsMatchAt(s, q)
    decreases |s| - from
  {
    if from == |s| then None
    else if IsMatchAt(s, from) then Some(from)
    else NextMatch(s, from + 1)
  }

  lemma {:induction false} NextMatchUnique(s: string, from: nat, r: Option<nat>)
    requires from <= |s|
    requires r.Some? ==> from <= r.value < |s| && IsMatchAt(s, r.value)
    requires r.Some? ==> forall q :: from <= q < r.value ==> !IsMatchAt(s, q)
    requires r.None? ==> forall q :: from <= q < |s| ==> !IsMatchAt(s, q)
    ensures NextMatch(s, from) == r
  {
  }

  /** A match inside a slice is a match in the whole string. */
  lemma {:induction false} MatchInSlice(s: string, a: nat, b: nat, p: nat)
    requires a <= b <= |s|
    requires IsMatchAt(s[a..b], p)
    ensures IsMatchAt(s, a + p)
  {
    var t := s[a..b];
    var k := ParamEnd(t, p + 2);
    forall j | a + p + 2 <= j < a + k ensures IsParam(s[j]) {
      assert s[j] == t[j - a];
    }
    assert s[a + k] == t[k];
    ParamEndUnique(s, a + p + 2, a + k);
  }

  // ------------------ Tokens ------------------

  /** A piece of an unlocked segment: a run of plain text or one escape sequence. */
  datatype Token = Literal(text: string) | Escape(code: string)

  function TextOf(t: Token): (s: string) {
    match t
    case Literal(x) => x
    case Escape(x) => x
  }

  function Concat(toks: seq<Token>): (s: string) {
    if toks == [] then "" else TextOf(toks[0]) + Concat(toks[1..])
  }

  /** An escape is a string of the pattern's language; a literal is non-empty and holds no match. */
  predicate WellFormed(t: Token) {
    match t
    case Escape(c) => IsAnsiSequence(c)
    case Literal(x) => x != "" && forall p :: 0 <= p < |x| ==> !IsMatchAt(x, p)
  }

  predicate NoAdjacentLiterals(toks: seq<Token>) {
    forall k :: 0 <= k < |toks| - 1 ==> !(toks[k].Literal? && toks[k + 1].Literal?)
  }

  /** The tokens of `s[from..]` in the order the matcher visits them. */
  function ScanFrom(s: string, from: nat): (toks: seq<Token>)
    requires from <= |s|
    decreases |s| - from
  {
    match NextMatch(s, from)
    case None => if from < |s| then [Literal(s[from..])] else []
    case Some(p) =>
      var e := MatchEnd(s, p);
      (if p > from then [Literal(s[from..p])] else []) + [Escape(s[p..e])] + ScanFrom(s, e)
  }

  /** One step of the scanner: the literal before the next match, if any, the match, then the rest. */
  lemma {:induction false} ScanFromSome(s: string, from: nat)
    requires from <= |s| && NextMatch(s, from).Some?
    ensures var p := NextMatch(s, from).value;
      ScanFrom(s, from) == (if p > from then [Literal(s[from..p])] else []) + [Escape(s[p..MatchEnd(s, p)])] + ScanFrom(s, MatchEnd(s, p))
  {
  }

  lemma {:induction false} ScanFromNone(s: string, from: nat)
    requires from <= |s| && NextMatch(s, from).None?
    ensures ScanFrom(s, from) == if from < |s| then [Literal(s[from..])] else []
  {
  }

  lemma {:induction false} ConcatCons(t: Token, toks: seq<Token>)
    ensures Concat([t] + toks) == TextOf(t) + Concat(toks)
  {
    assert ([t] + toks)[1..] == toks;
  }

  lemma {:induction false} ConcatAppend(xs: seq<Token>, ys: seq<Token>)
    ensures Concat(xs + ys) == Concat(xs) + Concat(ys)
    decreases |xs|
  {
    if xs == [] {
      assert xs + ys == ys;
    } else {
      assert (xs + ys)[1..] == xs[1..] + ys;
      ConcatAppend(xs[1..], ys);
    }
  }

  /** A literal taken between `from` and the next match holds no match of its own. */
  lemma {:induction false} LiteralHoldsNoMatch(s: string, from: nat, to: nat)
    requires from < to <= |s|
    requires forall q :: from <= q < to ==> !IsMatchAt(s, q)
    ensures WellFormed(Literal(s[from..to]))
  {
    forall p | 0 <= p < to - from ensures !IsMatchAt(s[from..to], p) {
      if IsMatchAt(s[from..to], p) {
        MatchInSlice(s, from, to, p);
      }
    }
  }

  lemma {:induction false} ConcatStep(s: string, from: nat, p: nat, e: nat, toks: seq<Token>, rest: seq<Token>)
    requires from <= p < e <= |s|
    requires toks == (if p > from then [Literal(s[from..p])] else []) + [Escape(s[p..e])] + rest
    requires Concat(rest) == s[e..]
    ensures Concat(toks) == s[from..]
  {
    var esc := Escape(s[p..e]);
    ConcatCons(esc, rest);
    if p > from {
      var lit := Literal(s[from..p]);
      assert toks == [lit] + ([esc] + rest);
      ConcatCons(lit, [esc] + rest);
      assert s[from..] == s[from..p] + (s[p..e] + s[e..]);
    } else {
      assert toks == [esc] + rest;
      assert s[from..] == s[p..e] + s[e..];
    }
  }

  /** The tokens concatenate back to the scanned text. */
  lemma {:induction false} ScanConcat(s: string, from: nat)
    requires from <= |s|
    ensures Concat(ScanFrom(s, from)) == s[from..]
    decreases |s| - from
  {
    if NextMatch(s, from).None? {
      ScanFromNone(s, from);
      if from < |s| {
        ConcatCons(Literal(s[from..]), []);
      }
    } else {
      var p := NextMatch(s, from).value;
      var e := MatchEnd(s, p);
      ScanFromSome(s, from);
      ScanConcat(s, e);
      ConcatStep(s, from, p, e, ScanFrom(s, from), ScanFrom(s, e));
    }
  }

  predicate AllWellFormed(toks: seq<Token>) {
    forall k :: 0 <= k < |toks| ==> WellFormed(toks[k])
  }

  /** An escape with at most one literal before it, in front of well-formed tokens. */
  lemma {:induction false} WellFormedStep(pre: seq<Token>, esc: Token, rest: seq<Token>, toks: seq<Token>)
    requires toks == pre + [esc] + rest && |pre| <= 1
    requires AllWellFormed(pre) && esc.Escape? && WellFormed(esc)
    requires AllWellFormed(rest) && NoAdjacentLiterals(rest)
    ensures AllWellFormed(toks) && NoAdjacentLiterals(toks)
  {
    forall k | 0 <= k < |toks| ensures WellFormed(toks[k]) {
      if k < |pre| {
        assert toks[k] == pre[k];
      } else if k >= |pre| + 1 {
        assert toks[k] == rest[k - |pre| - 1];
      }
    }
    forall k | 0 <= k < |toks| - 1 ensures !(toks[k].Literal? && toks[k + 1].Literal?) {
      if k > |pre| {
        assert toks[k] == rest[k - |pre| - 1];
        assert toks[k + 1] == rest[k - |pre|];
      } else if k == |pre| {
        assert toks[k] == esc;
      } else {
        assert toks[k + 1] == esc;
      }
    }
  }

  /** The tokens of the rest of the text, if any, form one well-formed literal. */
  lemma {:induction false} WellFormedLast(s: string, from: nat)
    requires from <= |s| && NextMatch(s, from).None?
    ensures AllWellFormed(ScanFrom(s, from)) && NoAdjacentLiterals(ScanFrom(s, from))
  {
    ScanFromNone(s, from);
    if from < |s| {
      LiteralHoldsNoMatch(s, from, |s|);
      assert s[from..|s|] == s[from..];
    }
  }

  /** The literal before a match, if any, is well formed. */
  lemma {:induction false} WellFormedPre(s: string, from: nat, p: nat, pre: seq<Token>)
    requires from <= p <= |s| && forall q :: from <= q < p ==> !IsMatchAt(s, q)
    requires pre == if p > from then [Literal(s[from..p])] else []
    ensures AllWellFormed(pre) && |pre| <= 1
  {
    if p > from {
      LiteralHoldsNoMatch(s, from, p);
    }
  }

  /** Every token is well formed and no two literals are adjacent. */
  lemma {:induction false} ScanWellFormed(s: string, from: nat)
    requires from <= |s|
    ensures AllWellFormed(ScanFrom(s, from)) && NoAdjacentLiterals(ScanFrom(s, from))
    decreases |s| - from
  {
    if NextMatch(s, from).None? {
      WellFormedLast(s, from);
    } else {
      var p := NextMatch(s, from).value;
      var e := MatchEnd(s, p);
      var pre: seq<Token> := if p > from then [Literal(s[from..p])] else [];
      ScanFromSome(s, from);
      ScanWellFormed(s, e);
      WellFormedPre(s, from, p, pre);
      WellFormedStep(pre, Escape(s[p..e]), ScanFrom(s, e), ScanFrom(s, from));
    }
  }

  /** Taken together: the scanner's tokens are a faithful, well-formed decomposition of the text. */
  lemma {:induction false} ScanProperties(s: string)
    ensures Concat(ScanFrom(s, 0)) == s
    ensures forall k :: 0 <= k < |ScanFrom(s, 0)| ==> WellFormed(ScanFrom(s, 0)[k])
    ensures NoAdjacentLiterals(ScanFrom(s, 0))
  {
    ScanConcat(s, 0);
    ScanWellFormed(s, 0);
  }

  // ------------------ Rendering ------------------

  /**
   * The output for the tokens of an unlocked segment: an escape passes
   * through; a literal followed by an escape becomes the codes, the text and
   * a reset; the literal that ends the segment becomes the codes and a reset
   * only, its text being dropped.
   */
  function RenderTokens(toks: seq<Token>, codes: string): (r: string) {
    if toks == [] then ""
    else
      match toks[0]
      case Escape(c) => c + RenderTokens(toks[1..], codes)
      case Literal(t) =>
        (if |toks| > 1 then codes + t + RESET.code else codes + RESET.code) + RenderTokens(toks[1..], codes)
  }

  /** A locked segment is copied; any other is rendered token by token. */
  function RenderSegment(seg: string, codes: string): (r: string) {
    if IsLocked(seg) then seg else RenderTokens(ScanFrom(seg, 0), codes)
  }

  function RenderAll(segs: seq<string>, codes: string): (r: string) {
    if segs == [] then "" else RenderAll(segs[..|segs| - 1], codes) + RenderSegment(segs[|segs| - 1], codes)
  }

  /** What `processLocks` appends to the builder for `msg` and `styles`. */
  function Rendered(msg: string, styles: seq<Style>): (r: string) {
    RenderAll(Split(msg), Codes(styles))
  }

  lemma {:induction false} RenderTokensEscape(c: string, rest: seq<Token>, codes: string)
    ensures RenderTokens([Escape(c)] + rest, codes) == c + RenderTokens(rest, codes)
  {
    assert ([Escape(c)] + rest)[1..] == rest;
  }

  lemma {:induction false} RenderTokensLiteral(t: string, c: string, rest: seq<Token>, codes: string)
    ensures RenderTokens([Literal(t), Escape(c)] + rest, codes) == codes + t + RESET.code + c + RenderTokens(rest, codes)
  {
    assert ([Literal(t), Escape(c)] + rest)[1..] == [Escape(c)] + rest;
    RenderTokensEscape(c, rest, codes);
  }

  /** What a literal run before a match at `p` turns into: nothing when the run is empty. */
  function Run(s: string, from: nat, p: nat, codes: string): (r: string)
    requires from <= p <= |s|
  {
    if p > from then codes + s[from..p] + RESET.code else ""
  }

  /** One round of the matcher loop: the text before the match, if any, then the match. */
  lemma {:induction false} ScanStep(s: string, from: nat, p: nat, e: nat, codes: string)
    requires from <= |s| && NextMatch(s, from) == Some(p) && e == MatchEnd(s, p)
    ensures RenderTokens(ScanFrom(s, from), codes) == Run(s, from, p, codes) + s[p..e] + RenderTokens(ScanFrom(s, e), codes)
  {
    var rest := ScanFrom(s, e);
    ScanFromSome(s, from);
    if p > from {
      assert ScanFrom(s, from) == [Literal(s[from..p]), Escape(s[p..e])] + rest;
      RenderTokensLiteral(s[from..p], s[p..e], rest, codes);
    } else {
      assert ScanFrom(s, from) == [Escape(s[p..e])] + rest;
      RenderTokensEscape(s[p..e], rest, codes);
    }
  }

  /** After the last match: the codes and a reset when text remains, else nothing. */
  lemma {:induction false} ScanEnd(s: string, from: nat, codes: string)
    requires from <= |s| && NextMatch(s, from).None?
    ensures RenderTokens(ScanFrom(s, from), codes) == if from < |s| then codes + RESET.code else ""
  {
    ScanFromNone(s, from);
  }

  // ------------------ processLocks and apply ------------------

  /** The matcher loop's invariant survives one round. */
  lemma {:induction false} LoopStep(sb: string, r0: string, r1: string, s: string, from: nat, p: nat, e: nat, codes: string)
    requires from <= |s| && NextMatch(s, from) == Some(p) && e == MatchEnd(s, p)
    requires r0 + RenderTokens(ScanFrom(s, from), codes) == sb + RenderTokens(ScanFrom(s, 0), codes)
    requires r1 == r0 + Run(s, from, p, codes) + s[p..e]
    ensures r1 + RenderTokens(ScanFrom(s, e), codes) == sb + RenderTokens(ScanFrom(s, 0), codes)
  {
    ScanStep(s, from, p, e, codes);
    Assoc4(r0, Run(s, from, p, codes), s[p..e], RenderTokens(ScanFrom(s, e), codes));
  }

  /** Appending the codes, a literal run and a reset. */
  method AppendRun(sb: string, text: string, styles: seq<Style>) returns (r: string)
    ensures r == sb + (Codes(styles) + text + RESET.code)
  {
    r := AppendCodes(sb, styles);
    r := r + text;
    r := r + RESET.code;
    Assoc4(sb, Codes(styles), text, RESET.code);
  }

  /** One round of the matcher loop: the run before the match at `start`, if any, then the match itself. */
  method AppendMatch(r: string, segment: string, lastIdx: nat, start: nat, styles: seq<Style>) returns (r': string, end: nat)
    requires lastIdx <= |segment| && NextMatch(segment, lastIdx) == Some(start)
    ensures end == MatchEnd(segment, start)
    ensures r' == r + Run(segment, lastIdx, start, Codes(styles)) + segment[start..end]
  {
    end := MatchEnd(segment, start);
    r' := r;
    if start > lastIdx {
      var text := segment[lastIdx..start];
      r' := AppendRun(r', text, styles);
    } else {
      assert r' + Run(segment, lastIdx, start, Codes(styles)) == r';
    }
    r' := r' + segment[start..end];
  }

  /** After the last match: the codes and a reset when text remains, but not the text itself. */
  method AppendTail(r: string, segment: string, lastIdx: nat, styles: seq<Style>) returns (r': string)
    requires lastIdx <= |segment| && NextMatch(segment, lastIdx).None?
    ensures r' == r + RenderTokens(ScanFrom(segment, lastIdx), Codes(styles))
  {
    ScanEnd(segment, lastIdx, Codes(styles));
    r' := r;
    if lastIdx < |segment| {
      // the remaining text is not appended: only the codes and the reset are
      r' := AppendCodes(r', styles);
      r' := r' + RESET.code;
      Assoc(r, Codes(styles), RESET.code);
    } else {
      assert r' + "" == r';
    }
  }

  /** The matcher loop of `processLocks` over an unlocked segment. */
  method RenderUnlocked(sb: string, segment: string, styles: seq<Style>) returns (r: string)
    ensures r == sb + RenderTokens(ScanFrom(segment, 0), Codes(styles))
  {
    ghost var codes := Codes(styles);
    r := sb;
    var lastIdx := 0;
    var found := NextMatch(segment, lastIdx);
    while found.Some?
      invariant lastIdx <= |segment|
      invariant found == NextMatch(segment, lastIdx)
      invariant r + RenderTokens(ScanFrom(segment, lastIdx), codes) == sb + RenderTokens(ScanFrom(segment, 0), codes)
      decreases |segment| - lastIdx
    {
      ghost var r0 := r;
      var start := found.value;
      var end;
      r, end := AppendMatch(r, segment, lastIdx, start, styles);
      LoopStep(sb, r0, r, segment, lastIdx, start, end, codes);
      lastIdx := end;
      found := NextMatch(segment, lastIdx);
    }
    r := AppendTail(r, segment, lastIdx, styles);
  }

  /** The body of the segment loop of `processLocks`: a locked segment is appended as it is. */
  method ProcessSegment(sb: string, segment: string, styles: seq<Style>) returns (r: string)
    ensures r == sb + RenderSegment(segment, Codes(styles))
  {
    if IsLocked(segment) {
      r := sb + segment;
    } else {
      r := RenderUnlocked(sb, segment, styles);
    }
  }

  lemma {:induction false} RenderAllExtend(sb: string, r: string, segs: seq<string>, i: nat, codes: string)
    requires i < |segs| && r == sb + RenderAll(segs[..i], codes)
    ensures r + RenderSegment(segs[i], codes) == sb + RenderAll(segs[..i + 1], codes)
  {
    var pre := segs[..i + 1];
    TakeOneMore(segs, i, pre);
    RenderAllSnoc(pre, segs[..i], segs[i], codes);
    Assoc(sb, RenderAll(segs[..i], codes), RenderSegment(segs[i], codes));
  }

  /** Rendering a list of segments appends the rendering of its last segment to that of the others. */
  lemma {:induction false} RenderAllSnoc(zs: seq<string>, init: seq<string>, x: string, codes: string)
    requires zs != [] && zs[..|zs| - 1] == init && zs[|zs| - 1] == x
    ensures RenderAll(zs, codes) == RenderAll(init, codes) + RenderSegment(x, codes)
  {
  }

  /** The segment loop of `processLocks`. */
  method ProcessSegments(sb: string, segments: seq<string>, styles: seq<Style>) returns (r: string)
    ensures r == sb + RenderAll(segments, Codes(styles))
  {
    ghost var codes := Codes(styles);
    r := sb;
    for i := 0 to |segments|
      invariant r == sb + RenderAll(segments[..i], codes)
    {
      ghost var r0 := r;
      r := ProcessSegment(r, segments[i], styles);
      RenderAllExtend(sb, r0, segments, i, codes);
    }
    assert segments[..|segments|] == segments;
  }

  /**
   * `processLocks(sb, msg, styles...)`, with the builder's contents `sb`
   * before the call: the result is those contents followed by the rendering.
   */
  method ProcessLocks(sb: string, msg: string, styles: seq<Style>) returns (r: string)
    ensures r == sb + Rendered(msg, styles)
  {
    var segments := Split(msg);
    r := ProcessSegments(sb, segments, styles);
  }

  /** `apply(msg, styles...)`: a null or empty message comes back as it is. */
  method Apply(msg: Option<string>, styles: seq<Style>) returns (r: Option<string>)
    ensures msg.None? ==> r.None?
    ensures msg == Some("") ==> r == msg
    ensures msg.Some? ==> r == Some(Rendered(msg.value, styles))
  {
    if msg.None? || msg.value == "" {
      RenderedEmpty(styles);
      return msg;
    }
    var out := ProcessLocks("", msg.value, styles);
    assert "" + Rendered(msg.value, styles) == Rendered(msg.value, styles);
    return Some(out);
  }

  // ------------------ Properties of the rendering ------------------

  lemma {:induction false} RenderAllSingle(seg: string, codes: string)
    ensures RenderAll([seg], codes) == RenderSegment(seg, codes)
  {
    assert [seg][..0] == [];
  }

  lemma {:induction false} RenderAllAppend(xs: seq<string>, ys: seq<string>, codes: string)
    ensures RenderAll(xs + ys, codes) == RenderAll(xs, codes) + RenderAll(ys, codes)
    decreases |ys|
  {
    if ys == [] {
      assert xs + ys == xs;
    } else {
      var zs := xs + ys;
      var init := ys[..|ys| - 1];
      var x := ys[|ys| - 1];
      DropLastOfAppend(xs, ys, zs);
      RenderAllSnoc(zs, xs + init, x, codes);
      RenderAllSnoc(ys, init, x, codes);
      RenderAllAppend(xs, init, codes);
      Assoc(RenderAll(xs, codes), RenderAll(init, codes), RenderSegment(x, codes));
    }
  }

  lemma {:induction false} DropLastOfAppend(xs: seq<string>, ys: seq<string>, zs: seq<string>)
    requires ys != [] && zs == xs + ys
    ensures zs != [] && zs[..|zs| - 1] == xs + ys[..|ys| - 1] && zs[|zs| - 1] == ys[|ys| - 1]
  {
  }

  /** The empty message renders to nothing. */
  lemma {:induction false} RenderedEmpty(styles: seq<Style>)
    ensures Rendered("", styles) == ""
  {
    assert !StartsAt("", 0, LOCK_START);
    RenderAllSingle("", Codes(styles));
    ScanFromNone("", 0);
  }

  /** A non-empty message without split points is one segment. */
  lemma {:induction false} SingleSegment(msg: string)
    requires msg != ""
    requires forall i :: 0 < i < |msg| ==> !IsCut(msg, i)
    ensures Split(msg) == [msg]
  {
    NextCutUnique(msg, 0, |msg|);
    assert msg[0..] == msg;
  }

  /** Without an escape character there is no marker, no split point and no match. */
  lemma {:induction false} EscapeFree(msg: string)
    requires ESC !in msg
    ensures forall i :: 0 < i < |msg| ==> !IsCut(msg, i)
    ensures !IsLocked(msg)
    ensures forall q :: 0 <= q < |msg| ==> !IsMatchAt(msg, q)
  {
    forall i: nat ensures !StartsAt(msg, i, LOCK_START) && !StartsAt(msg, i, LOCK_END) {
      if StartsAt(msg, i, LOCK_START) {
        OccurrenceShape(msg, i, LOCK_START);
      }
      if StartsAt(msg, i, LOCK_END) {
        OccurrenceShape(msg, i, LOCK_END);
      }
    }
  }

  /**
   * A message with no escape character at all loses its text: the whole
   * output is the codes and a reset.
   */
  lemma {:induction false} PlainTextDropped(msg: string, styles: seq<Style>)
    requires msg != "" && ESC !in msg
    ensures Rendered(msg, styles) == Codes(styles) + RESET.code
  {
    EscapeFree(msg);
    SingleSegment(msg);
    RenderAllSingle(msg, Codes(styles));
    NextMatchUnique(msg, 0, None);
    ScanEnd(msg, 0, Codes(styles));
  }

  /** In `lock(t)` for marker-free `t` the only markers are the two that `lock` adds. */
  lemma {:induction false} MarkerInLock(t: string, x: string, i: nat)
    requires MarkerFree(t)
    requires x == LOCK_START || x == LOCK_END
    requires StartsAt(Lock(t), i, x)
    ensures (i == 0 && x == LOCK_START) || (i == |t| + 7 && x == LOCK_END)
  {
    assert Lock(t) == "" + LOCK_START + (t + LOCK_END);
    MarkerOccurrenceAround("", LOCK_START, t + LOCK_END, x, i);
    if i > 0 {
      assert t + LOCK_END == t + LOCK_END + "";
      MarkerOccurrenceAround(t, LOCK_END, "", x, i - 7);
    }
  }

  /** A locked marker-free text has no split point strictly inside it. */
  lemma {:induction false} LockNoInnerCut(t: string)
    requires MarkerFree(t)
    ensures forall i :: 0 < i < |Lock(t)| ==> !IsCut(Lock(t), i)
  {
    var l := Lock(t);
    MarkerShape(LOCK_START);
    MarkerShape(LOCK_END);
    assert LOCK_START != LOCK_END by { assert LOCK_START[6] != LOCK_END[6]; }
    assert |l| == |t| + 14;
    forall i | 0 < i < |l| ensures !IsCut(l, i) {
      if StartsAt(l, i, LOCK_START) {
        MarkerInLock(t, LOCK_START, i);
      }
      if EndsAt(l, i, LOCK_END) {
        MarkerInLock(t, LOCK_END, i - 7);
      }
    }
  }

  /** Locked marker-free text passes through the styling unchanged. */
  lemma {:induction false} LockedVerbatim(t: string, styles: seq<Style>)
    requires MarkerFree(t)
    ensures Rendered(Lock(t), styles) == Lock(t)
  {
    LockNoInnerCut(t);
    SingleSegment(Lock(t));
    RenderAllSingle(Lock(t), Codes(styles));
    LockIsLocked(t);
  }

  /** Rendering distributes over a join at a lock boundary. */
  lemma {:induction false} RenderedConcat(a: string, b: string, styles: seq<Style>)
    requires a != "" && b != ""
    requires EndsAt(a, |a|, LOCK_END) || StartsAt(b, 0, LOCK_START)
    ensures Rendered(a + b, styles) == Rendered(a, styles) + Rendered(b, styles)
  {
    SplitConcat(a, b);
    RenderAllAppend(Split(a), Split(b), Codes(styles));
  }

  /** A locked marker-free text followed by anything: the lock is kept and the rest rendered on its own. */
  lemma {:induction false} LockedPrefix(t: string, post: string, styles: seq<Style>)
    requires MarkerFree(t)
    ensures Rendered(Lock(t) + post, styles) == Lock(t) + Rendered(post, styles)
  {
    var l := Lock(t);
    LockedVerbatim(t, styles);
    if post == "" {
      RenderedEmpty(styles);
      assert l + post == l;
    } else {
      assert l[|l| - 7..|l|] == LOCK_END;
      RenderedConcat(l, post, styles);
    }
  }

  /** Anything followed by a locked marker-free text: the lock is kept and what precedes it rendered on its own. */
  lemma {:induction false} LockedSuffix(pre: string, t: string, styles: seq<Style>)
    requires MarkerFree(t)
    ensures Rendered(pre + Lock(t), styles) == Rendered(pre, styles) + Lock(t)
  {
    var l := Lock(t);
    LockedVerbatim(t, styles);
    if pre == "" {
      RenderedEmpty(styles);
      assert pre + l == l;
    } else {
      assert l[0..7] == LOCK_START;
      RenderedConcat(pre, l, styles);
    }
  }

  /** A locked marker-free piece anywhere in a message is kept as it is, and the text around it is rendered on its own. */
  lemma {:induction false} LockedSpliced(pre: string, t: string, post: string, styles: seq<Style>)
    requires MarkerFree(t)
    ensures Rendered(pre + Lock(t) + post, styles) == Rendered(pre, styles) + Lock(t) + Rendered(post, styles)
  {
    var l := Lock(t);
    var b := l + post;
    LockedPrefix(t, post, styles);
    Assoc(pre, l, post);
    if pre == "" {
      RenderedEmpty(styles);
      assert Rendered(pre, styles) + l == l;
      assert pre + l == l;
    } else {
      assert b[0..7] == LOCK_START;
      RenderedConcat(pre, b, styles);
      Assoc(Rendered(pre, styles), l, Rendered(post, styles));
    }
  }

  /** `"x" + LOCK_END` has no split point inside it, no LOCK_START, and a match only at its escape. */
  lemma {:induction false} StrayLockEndShape()
    ensures forall i :: 0 < i < |"x" + LOCK_END| ==> !IsCut("x" + LOCK_END, i)
    ensures !Contains("x" + LOCK_END, LOCK_START)
    ensures !IsMatchAt("x" + LOCK_END, 0) && IsAnsiSequence(("x" + LOCK_END)[1..8])
  {
    var b := "x" + LOCK_END;
    assert b == ['x', ESC, '[', '?', '2', '0', '0', 'l'];
    assert b[1..8] == LOCK_END;
    assert LOCK_END != LOCK_START by { assert LOCK_START[6] != LOCK_END[6]; }
    assert b[0..7] != LOCK_END by { assert b[0..7][0] == 'x'; }
    assert b[0..7] != LOCK_START by { assert b[0..7][0] == 'x'; }
  }

  /** The matcher visits `"x" + LOCK_END` as the literal `x` followed by the escape LOCK_END. */
  lemma {:induction false} StrayLockEndScan(codes: string)
    ensures RenderTokens(ScanFrom("x" + LOCK_END, 0), codes) == codes + "x" + RESET.code + LOCK_END
  {
    var b := "x" + LOCK_END;
    StrayLockEndShape();
    MatchCharacterization(b, 1, 8);
    NextMatchUnique(b, 0, Some(1));
    ScanStep(b, 0, 1, 8, codes);
    NextMatchUnique(b, 8, None);
    ScanEnd(b, 8, codes);
    assert b[0..1] == "x" && b[1..8] == LOCK_END;
  }

  /** A lone LOCK_END after plain text is an ordinary escape sequence: the text before it is styled. */
  lemma {:induction false} StrayLockEnd(styles: seq<Style>)
    ensures Rendered("x" + LOCK_END, styles) == Codes(styles) + "x" + RESET.code + LOCK_END
  {
    var b := "x" + LOCK_END;
    StrayLockEndShape();
    SingleSegment(b);
    RenderAllSingle(b, Codes(styles));
    StrayLockEndScan(Codes(styles));
  }

  /**
   * A locked span whose text holds a marker need not come out as it is: in
   * `lock(LOCK_END + "x")` the inner LOCK_END ends the first segment, and
   * the rest is styled as unlocked text.
   */
  lemma {:induction false} LockedMarkerRestyled()
    ensures Rendered(Lock(LOCK_END + "x"), []) == LOCK_START + LOCK_END + "x" + RESET.code + LOCK_END
    ensures Rendered(Lock(LOCK_END + "x"), []) != Lock(LOCK_END + "x")
  {
    var a := Lock("");
    var b := "x" + LOCK_END;
    assert Codes([]) == "";
    LockedMarkerParts(LOCK_START, LOCK_END, "x", Codes([]), RESET.code);
    assert EndsAt(a, |a|, LOCK_END) by { assert a[7..14] == LOCK_END; }
    LockedVerbatim("", []);
    RenderedConcat(a, b, []);
    StrayLockEnd([]);
    assert |Rendered(Lock(LOCK_END + "x"), [])| == 26;
  }

  /** The regrouping behind `LockedMarkerRestyled`, for abstract pieces. */
  lemma {:induction false} LockedMarkerParts(st: string, en: string, x: string, codes: string, reset: string)
    requires codes == ""
    ensures st + (en + x) + en == (st + "" + en) + (x + en)
    ensures (st + "" + en) + (codes + x + reset + en) == st + en + x + reset + en
  {
  }

  /** An escape sequence that starts where a marker starts is that marker. */
  lemma {:induction false} AnsiMarkerClash(msg: string, p: nat, e: string, x: string)
    requires x == LOCK_START || x == LOCK_END
    requires IsAnsiSequence(e) && StartsAt(msg, p, e)
    ensures StartsAt(msg, p, x) ==> e == x
  {
    if StartsAt(msg, p, x) {
      MarkerShape(x);
      var n := if |e| < 7 then |e| else 7;
      forall k | 0 <= k < n ensures e[k] == x[k] {
        assert msg[p..p + |e|][k] == msg[p + k];
        assert msg[p..p + 7][k] == msg[p + k];
      }
      if |e| < 7 {
        assert false;
      } else {
        assert x[6] == 'h' || x[6] == 'l';
        assert |e| == 7;
        assert e == x;
      }
    }
  }

  /** In `l1 + e + l2`, with escape-free `l1` and `l2` and `e` an escape sequence, the only escape character is the head of `e`. */
  lemma {:induction false} EscapeOnlyInSequence(l1: string, e: string, l2: string, q: nat)
    requires ESC !in l1 && ESC !in l2 && IsAnsiSequence(e)
    requires q < |l1 + e + l2| && (l1 + e + l2)[q] == ESC
    ensures q == |l1|
  {
    var msg := l1 + e + l2;
    if |l1| <= q < |l1| + |e| {
      assert msg[q] == e[q - |l1|];
    }
  }

  /**
   * One escape sequence other than a marker between two escape-free runs:
   * the first run is kept and wrapped in the codes and a reset, the escape
   * passes through, and the second run is replaced by the codes and a reset.
   */
  lemma {:induction false} EscapeFlanked(l1: string, e: string, l2: string, styles: seq<Style>)
    requires ESC !in l1 && ESC !in l2
    requires IsAnsiSequence(e) && e != LOCK_START && e != LOCK_END
    ensures Rendered(l1 + e + l2, styles) ==
      (if l1 == "" then "" else Codes(styles) + l1 + RESET.code) + e + (if l2 == "" then "" else Codes(styles) + RESET.code)
  {
    var msg := l1 + e + l2;
    var p := |l1|;
    var end := |l1| + |e|;
    var codes := Codes(styles);
    assert msg[p..end] == e;
    assert StartsAt(msg, p, e);
    AnsiMarkerClash(msg, p, e, LOCK_START);
    AnsiMarkerClash(msg, p, e, LOCK_END);
    forall i: nat ensures !StartsAt(msg, i, LOCK_START) && !StartsAt(msg, i, LOCK_END) {
      if StartsAt(msg, i, LOCK_START) {
        OccurrenceShape(msg, i, LOCK_START);
        EscapeOnlyInSequence(l1, e, l2, i);
      }
      if StartsAt(msg, i, LOCK_END) {
        OccurrenceShape(msg, i, LOCK_END);
        EscapeOnlyInSequence(l1, e, l2, i);
      }
    }
    assert !IsLocked(msg);
    SingleSegment(msg);
    RenderAllSingle(msg, codes);
    forall q | 0 <= q < |msg| && q != p ensures !IsMatchAt(msg, q) {
      if msg[q] == ESC {
        EscapeOnlyInSequence(l1, e, l2, q);
      }
    }
    MatchCharacterization(msg, p, end);
    NextMatchUnique(msg, 0, Some(p));
    NextMatchUnique(msg, end, None);
    ScanStep(msg, 0, p, end, codes);
    ScanEnd(msg, end, codes);
    assert msg[0..p] == l1;
  }

  // ------------------ Proof helpers: sequence identities ------------------

  /** Equal heads and equal tails give equal sequences. */
  lemma {:induction false} ConsCongruence(l: seq<string>, r: seq<string>, h1: string, t1: seq<string>, h2: string, t2: seq<string>)
    requires l == [h1] + t1 && r == [h2] + t2 && h1 == h2 && t1 == t2
    ensures l == r
  {
  }

  /** A slice inside the left part of a concatenation. */
  lemma {:induction false} SliceLeft(a: string, b: string, x: nat, y: nat)
    requires x <= y <= |a|
    ensures (a + b)[x..y] == a[x..y]
  {
  }

  /** A slice inside the right part of a concatenation. */
  lemma {:induction false} SliceRight(a: string, b: string, x: nat, y: nat)
    requires |a| <= x <= y <= |a| + |b|
    ensures (a + b)[x..y] == b[x - |a|..y - |a|]
  {
  }

  /** Replacing the tail of a concatenation by an equal one. */
  lemma {:induction false} Substitute<T>(x: seq<T>, p: seq<T>, q: seq<T>, r: seq<T>)
    requires x == p + q && q == r
    ensures x == p + r
  {
  }

  /** The prefix of length `i + 1` is the prefix of length `i` and element `i`. */
  lemma {:induction false} TakeOneMore(segs: seq<string>, i: nat, pre: seq<string>)
    requires i < |segs| && pre == segs[..i + 1]
    ensures pre != [] && pre[..|pre| - 1] == segs[..i] && pre[|pre| - 1] == segs[i]
  {
  }
}
