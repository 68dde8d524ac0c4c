/** The two pruning disciplines of the LinCbO engine, on values: what the stacks hold
    while the search runs, and why a child that they skip would have been cut. */
module Pruning {
  import opened FormalContext
  import opened Implications
  import opened LinCboReference

  /** A node of the search that waits for its current child.  `count` is inherited by
      the children, `i` is the attribute of the current child, and `snapshot` the height
      of the pruning stack when the node was entered. */
  datatype Frame = Frame(y: int, closed: set<nat>, count: seq<int>, i: int, snapshot: nat)

  ghost predicate FrameOk(ctx: Context, f: Frame) {
    && f.closed <= ctx.Attributes()
    && -1 <= f.y < f.i <= |ctx.cols|
    && (f.y >= 0 ==> f.y in f.closed)
    && ctx.Closure(f.closed) == f.closed
  }

  /** g is inside the subtree of the current child of f. */
  ghost predicate Inside(f: Frame, g: Frame) {
    && f.closed <= g.closed
    && f.i <= g.y
    && Agrees(g.closed, f.closed, f.i)
  }

  ghost predicate FramesOk(ctx: Context, frames: seq<Frame>) {
    && (forall k | 0 <= k < |frames| :: FrameOk(ctx, frames[k]))
    && (forall j, k | 0 <= j < k < |frames| :: Inside(frames[j], frames[k]))
  }

  /** Adding att to c forces the smaller attribute r. */
  ghost predicate Forces(ctx: Context, l: seq<Implication>, c: set<nat>, att: nat, r: int)
    requires Within(l, ctx.Attributes()) && c <= ctx.Attributes()
  {
    0 <= r < att < |ctx.cols| && r in Saturate(l, ctx.Attributes(), c + {att})
  }

  lemma ForcesMonotone(ctx: Context, l: seq<Implication>, l': seq<Implication>, c: set<nat>, c': set<nat>,
                       att: nat, r: int)
    requires Within(l, ctx.Attributes()) && Within(l', ctx.Attributes()) && l <= l'
    requires c <= c' <= ctx.Attributes() && Forces(ctx, l, c, att, r)
    ensures Forces(ctx, l', c', att, r)
  {
    SaturateMonotone(l, l', ctx.Attributes(), c + {att}, c' + {att});
  }

  /** data' is data with the popped attributes reset. */
  ghost predicate Cleared(data: seq<int>, data': seq<int>, popped: seq<nat>) {
    && |data'| == |data|
    && forall att: nat | att < |data| :: data'[att] == (if att in popped then -1 else data[att])
  }

  ghost predicate SnapshotsOk(frames: seq<Frame>, size: nat) {
    && (forall j, k | 0 <= j < k < |frames| :: frames[j].snapshot <= frames[k].snapshot)
    && (forall k | 0 <= k < |frames| :: frames[k].snapshot <= size)
    && (if frames == [] then size == 0 else frames[0].snapshot == 0)
  }

  // ---- LIFO ----

  /** Some live node of the stack put att on the pruning stack with its present rule. */
  ghost predicate LifoOwned(ctx: Context, l: seq<Implication>, frames: seq<Frame>, stack: seq<nat>,
                            att: nat, r: int, k: nat, p: nat)
    requires Within(l, ctx.Attributes()) && FramesOk(ctx, frames)
  {
    && k < |frames| && frames[k].snapshot <= p < |stack| && stack[p] == att
    && Forces(ctx, l, frames[k].closed, att, r)
  }

  ghost predicate LifoOk(ctx: Context, l: seq<Implication>, frames: seq<Frame>, rules: seq<int>, stack: seq<nat>)
    requires Within(l, ctx.Attributes()) && FramesOk(ctx, frames)
  {
    && |rules| == |ctx.cols|
    && (forall p | 0 <= p < |stack| :: stack[p] < |ctx.cols|)
    && SnapshotsOk(frames, |stack|)
    && (forall att: nat | att < |rules| && rules[att] != -1 ::
          exists k: nat, p: nat :: LifoOwned(ctx, l, frames, stack, att, rules[att], k, p))
  }

  lemma LifoSkipIsCut(ctx: Context, l: seq<Implication>, frames: seq<Frame>, rules: seq<int>, stack: seq<nat>, i: nat)
    requires ctx.Valid() && Within(l, ctx.Attributes()) && FramesOk(ctx, frames) && frames != []
    requires LifoOk(ctx, l, frames, rules, stack) && i < |rules|
    requires rules[i] != -1 && rules[i] !in frames[|frames| - 1].closed + {i}
    ensures CutAtOnce(ctx, l, frames[|frames| - 1].closed + {i}, i)
  {
    var k: nat, p: nat :| LifoOwned(ctx, l, frames, stack, i, rules[i], k, p);
    var c := frames[|frames| - 1].closed;
    assert frames[k].closed <= c by {
      if k < |frames| - 1 { assert Inside(frames[k], frames[|frames| - 1]); }
    }
    ForcesMonotone(ctx, l, l, frames[k].closed, c, i, rules[i]);
  }

  lemma LifoPushed(ctx: Context, l: seq<Implication>, frames: seq<Frame>, rules: seq<int>, stack: seq<nat>,
                   i: nat, r: int)
    requires Within(l, ctx.Attributes()) && FramesOk(ctx, frames) && frames != []
    requires LifoOk(ctx, l, frames, rules, stack)
    requires Forces(ctx, l, frames[|frames| - 1].closed, i, r)
    ensures LifoOk(ctx, l, frames, rules[i := r], stack + [i])
  {
    var rules', stack' := rules[i := r], stack + [i];
    forall att: nat | att < |rules'| && rules'[att] != -1
      ensures exists k: nat, p: nat :: LifoOwned(ctx, l, frames, stack', att, rules'[att], k, p)
    {
      if att == i {
        assert LifoOwned(ctx, l, frames, stack', att, rules'[att], |frames| - 1, |stack|);
      } else {
        var k: nat, p: nat :| LifoOwned(ctx, l, frames, stack, att, rules[att], k, p);
        assert LifoOwned(ctx, l, frames, stack', att, rules'[att], k, p);
      }
    }
  }

  lemma LifoUnwound(ctx: Context, l: seq<Implication>, frames: seq<Frame>, rules: seq<int>, stack: seq<nat>,
                    rules': seq<int>)
    requires Within(l, ctx.Attributes()) && FramesOk(ctx, frames) && frames != []
    requires LifoOk(ctx, l, frames, rules, stack)
    requires Cleared(rules, rules', stack[frames[|frames| - 1].snapshot..])
    ensures FramesOk(ctx, frames[..|frames| - 1])
    ensures LifoOk(ctx, l, frames[..|frames| - 1], rules', stack[..frames[|frames| - 1].snapshot])
  {
    var rest, s := frames[..|frames| - 1], frames[|frames| - 1].snapshot;
    FramesPrefix(ctx, frames);
    forall att: nat | att < |rules'| && rules'[att] != -1
      ensures exists k: nat, p: nat :: LifoOwned(ctx, l, rest, stack[..s], att, rules'[att], k, p)
    {
      var k: nat, p: nat :| LifoOwned(ctx, l, frames, stack, att, rules[att], k, p);
      LifoOwnedBelow(ctx, l, frames, stack, att, rules[att], k, p);
    }
  }

  lemma FramesPrefix(ctx: Context, frames: seq<Frame>)
    requires FramesOk(ctx, frames) && frames != []
    ensures FramesOk(ctx, frames[..|frames| - 1])
  {}

  lemma LifoOwnedBelow(ctx: Context, l: seq<Implication>, frames: seq<Frame>, stack: seq<nat>,
                       att: nat, r: int, k: nat, p: nat)
    requires Within(l, ctx.Attributes()) && FramesOk(ctx, frames) && frames != [] && SnapshotsOk(frames, |stack|)
    requires LifoOwned(ctx, l, frames, stack, att, r, k, p)
    requires att !in stack[frames[|frames| - 1].snapshot..] && FramesOk(ctx, frames[..|frames| - 1])
    ensures LifoOwned(ctx, l, frames[..|frames| - 1], stack[..frames[|frames| - 1].snapshot], att, r, k, p)
  {
    assert p < frames[|frames| - 1].snapshot;
  }

  lemma LifoGrows(ctx: Context, l: seq<Implication>, l': seq<Implication>, frames: seq<Frame>, frames': seq<Frame>,
                  rules: seq<int>, stack: seq<nat>)
    requires Within(l, ctx.Attributes()) && Within(l', ctx.Attributes()) && l <= l'
    requires FramesOk(ctx, frames) && FramesOk(ctx, frames') && LifoOk(ctx, l, frames, rules, stack)
    requires SameBase(frames, frames', |stack|)
    ensures LifoOk(ctx, l', frames', rules, stack)
  {
    hide Within, Inside;
    forall att: nat | att < |rules| && rules[att] != -1
      ensures exists k: nat, p: nat :: LifoOwned(ctx, l', frames', stack, att, rules[att], k, p)
    {
      var k: nat, p: nat :| LifoOwned(ctx, l, frames, stack, att, rules[att], k, p);
      ForcesMonotone(ctx, l, l', frames[k].closed, frames'[k].closed, att, rules[att]);
      assert LifoOwned(ctx, l', frames', stack, att, rules[att], k, p);
    }
  }

  /** frames' has the nodes of frames, up to the child index, and perhaps one more whose
      snapshot is the present height of the pruning stack. */
  ghost predicate SameBase(frames: seq<Frame>, frames': seq<Frame>, size: nat) {
    && |frames| <= |frames'| <= |frames| + 1
    && (forall k | 0 <= k < |frames| ::
          frames'[k].closed == frames[k].closed && frames'[k].snapshot == frames[k].snapshot)
    && (|frames'| > |frames| ==> frames'[|frames|].snapshot == size)
  }

  // ---- LCM ----

  /** Position p of the pruning stack was filled by node k. */
  ghost predicate InSegment(frames: seq<Frame>, size: nat, k: nat, p: nat) {
    && k < |frames|
    && frames[k].snapshot <= p < (if k + 1 < |frames| then frames[k + 1].snapshot else size)
  }

  lemma {:induction false} SegmentOf(frames: seq<Frame>, size: nat, p: nat) returns (k: nat)
    requires SnapshotsOk(frames, size) && p < size
    ensures InSegment(frames, size, k, p)
  {
    k := 0;
    while k + 1 < |frames| && frames[k + 1].snapshot <= p
      invariant k < |frames| && frames[k].snapshot <= p
    {
      k := k + 1;
    }
  }

  ghost predicate LcmEntryOk(ctx: Context, l: seq<Implication>, frames: seq<Frame>, data: seq<int>, att: nat, k: nat)
    requires Within(l, ctx.Attributes()) && FramesOk(ctx, frames)
    requires k < |frames| && att < |data|
  {
    && Forces(ctx, l, frames[k].closed, att, data[att])
    && data[att] !in frames[k].closed
    && att >= frames[k].i
    && (k + 1 < |frames| ==> data[att] < frames[k].i)
  }

  ghost predicate ChildUnmarked(f: Frame, stack: seq<nat>) {
    forall p | 0 <= p < |stack| :: stack[p] != f.i
  }

  /** An attribute is marked exactly when it is on the stack, where it is once. */
  ghost predicate LcmMarks(data: seq<int>, stack: seq<nat>) {
    && (forall p | 0 <= p < |stack| :: stack[p] < |data|)
    && (forall p, q | 0 <= p < q < |stack| :: stack[p] != stack[q])
    && (forall att: nat | att < |data| :: data[att] >= -1 && (data[att] != -1 <==> att in stack))
  }

  ghost predicate LcmChildren(frames: seq<Frame>, stack: seq<nat>)
    requires SnapshotsOk(frames, |stack|)
  {
    forall k: nat | k + 1 < |frames| :: ChildUnmarked(frames[k], stack[..frames[k + 1].snapshot])
  }

  ghost predicate LcmEntries(ctx: Context, l: seq<Implication>, frames: seq<Frame>, data: seq<int>, stack: seq<nat>)
    requires Within(l, ctx.Attributes()) && FramesOk(ctx, frames) && LcmMarks(data, stack)
    requires SnapshotsOk(frames, |stack|)
  {
    forall k: nat, p: nat | InSegment(frames, |stack|, k, p) :: LcmEntryOk(ctx, l, frames, data, stack[p], k)
  }

  ghost predicate LcmSorted(frames: seq<Frame>, data: seq<int>, stack: seq<nat>)
    requires LcmMarks(data, stack) && SnapshotsOk(frames, |stack|)
  {
    forall k: nat, p: nat, q: nat | p < q && InSegment(frames, |stack|, k, p) && InSegment(frames, |stack|, k, q) ::
      data[stack[p]] <= data[stack[q]]
  }

  ghost predicate LcmOk(ctx: Context, l: seq<Implication>, frames: seq<Frame>, data: seq<int>, stack: seq<nat>)
    requires Within(l, ctx.Attributes()) && FramesOk(ctx, frames)
  {
    && |data| == |ctx.cols|
    && SnapshotsOk(frames, |stack|)
    && LcmMarks(data, stack)
    && LcmChildren(frames, stack)
    && LcmEntries(ctx, l, frames, data, stack)
    && LcmSorted(frames, data, stack)
  }

  /** An attribute still marked when its turn comes in the top node is marked by a node
      below, and its child would be cut. */
  lemma LcmSkipIsCut(ctx: Context, l: seq<Implication>, frames: seq<Frame>, data: seq<int>, stack: seq<nat>, i: nat)
    requires ctx.Valid() && Within(l, ctx.Attributes()) && FramesOk(ctx, frames) && frames != []
    requires LcmOk(ctx, l, frames, data, stack) && i < |data|
    requires frames[|frames| - 1].y < i < frames[|frames| - 1].i
    requires data[i] != -1
    ensures CutAtOnce(ctx, l, frames[|frames| - 1].closed + {i}, i)
  {
    assert i in stack;
    var p: nat :| p < |stack| && stack[p] == i;
    var k := SegmentOf(frames, |stack|, p);
    var f, g := frames[k], frames[|frames| - 1];
    assert LcmEntryOk(ctx, l, frames, data, i, k);
    assert FrameOk(ctx, g) && Inside(f, g);
    RuleBelowCuts(ctx, l, f, g, i, data[i]);
  }

  lemma RuleBelowCuts(ctx: Context, l: seq<Implication>, f: Frame, g: Frame, i: nat, r: int)
    requires Within(l, ctx.Attributes()) && f.closed <= g.closed <= ctx.Attributes()
    requires Inside(f, g) && g.y < i
    requires Forces(ctx, l, f.closed, i, r) && r !in f.closed && r < f.i
    ensures CutAtOnce(ctx, l, g.closed + {i}, i)
  {
    ForcesMonotone(ctx, l, l, f.closed, g.closed, i, r);
    var r': nat := r;
    assert r' in g.closed <==> r' in f.closed;
    assert r' in Saturate(l, ctx.Attributes(), g.closed + {i});
  }

  lemma MarksDropped(data: seq<int>, stack: seq<nat>, data': seq<int>, m: nat)
    requires LcmMarks(data, stack) && m <= |stack| && Cleared(data, data', stack[m..])
    ensures LcmMarks(data', stack[..m])
    ensures forall p | 0 <= p < m :: data'[stack[p]] == data[stack[p]]
  {
    forall p | 0 <= p < m ensures stack[p] !in stack[m..] {}
    forall att: nat | att < |data'| ensures data'[att] >= -1 && (data'[att] != -1 <==> att in stack[..m]) {
      if att in stack && att !in stack[m..] {
        var p :| 0 <= p < |stack| && stack[p] == att;
        assert p < m;
        assert stack[..m][p] == att;
      }
    }
  }

  /** Dropping the upper part of the top segment. */
  lemma LcmDropped(ctx: Context, l: seq<Implication>, frames: seq<Frame>, data: seq<int>, stack: seq<nat>,
                   data': seq<int>, m: nat)
    requires Within(l, ctx.Attributes()) && FramesOk(ctx, frames) && frames != []
    requires LcmOk(ctx, l, frames, data, stack)
    requires frames[|frames| - 1].snapshot <= m <= |stack| && Cleared(data, data', stack[m..])
    ensures LcmOk(ctx, l, frames, data', stack[..m])
  {
    MarksDropped(data, stack, data', m);
    var stack' := stack[..m];
    forall k: nat | k + 1 < |frames| ensures ChildUnmarked(frames[k], stack'[..frames[k + 1].snapshot]) {
      assert stack'[..frames[k + 1].snapshot] == stack[..frames[k + 1].snapshot];
    }
    forall k: nat, p: nat | InSegment(frames, m, k, p)
      ensures InSegment(frames, |stack|, k, p)
      ensures data'[stack'[p]] == data[stack[p]] && LcmEntryOk(ctx, l, frames, data', stack'[p], k)
    {
      LcmEntryStays(ctx, l, frames, data, data', stack[p], k);
    }
  }

  lemma LcmEntryStays(ctx: Context, l: seq<Implication>, frames: seq<Frame>, data: seq<int>, data': seq<int>,
                      att: nat, k: nat)
    requires Within(l, ctx.Attributes()) && FramesOk(ctx, frames)
    requires k < |frames| && att < |data| && att < |data'| && data'[att] == data[att]
    requires LcmEntryOk(ctx, l, frames, data, att, k)
    ensures LcmEntryOk(ctx, l, frames, data', att, k)
  {}

  lemma LcmUnwound(ctx: Context, l: seq<Implication>, frames: seq<Frame>, data: seq<int>, stack: seq<nat>)
    requires Within(l, ctx.Attributes()) && FramesOk(ctx, frames) && frames != []
    requires LcmOk(ctx, l, frames, data, stack) && |stack| == frames[|frames| - 1].snapshot
    ensures FramesOk(ctx, frames[..|frames| - 1])
    ensures LcmOk(ctx, l, frames[..|frames| - 1], data, stack)
  {
    hide Within, FrameOk, Inside, LcmMarks;
    var rest := frames[..|frames| - 1];
    forall k: nat, p: nat | InSegment(rest, |stack|, k, p)
      ensures InSegment(frames, |stack|, k, p) && LcmEntryOk(ctx, l, rest, data, stack[p], k)
    {
      assert InSegment(frames, |stack|, k, p);
      assert LcmEntryOk(ctx, l, frames, data, stack[p], k);
    }
  }

  /** The entries from cur on have moved one place up. */
  ghost predicate Shifted(stack: seq<nat>, was: seq<nat>, cur: nat) {
    && cur <= |was| == |stack| - 1
    && (forall p | 0 <= p < cur :: stack[p] == was[p])
    && forall p | cur <= p < |was| :: stack[p + 1] == was[p]
  }

  lemma ShiftStarts(was: seq<nat>, i: nat)
    ensures Shifted(was + [i], was, |was|)
  {}

  lemma ShiftedBelow(stack: seq<nat>, was: seq<nat>, cur: nat)
    requires Shifted(stack, was, cur)
    ensures |stack| == |was| + 1 && forall p | 0 <= p < cur :: stack[p] == was[p]
  {}

  lemma ShiftOne(stack: seq<nat>, was: seq<nat>, cur: nat)
    requires Shifted(stack, was, cur) && cur > 0
    ensures cur < |stack| && Shifted(stack[cur := stack[cur - 1]], was, cur - 1)
  {}

  lemma ShiftEnds(stack: seq<nat>, was: seq<nat>, cur: nat, i: nat)
    requires Shifted(stack, was, cur)
    ensures cur < |stack| && stack[cur := i] == Inserted(was, i, cur)
  {}

  ghost function Inserted(stack: seq<nat>, i: nat, pos: nat): (stack': seq<nat>)
    requires pos <= |stack|
    ensures |stack'| == |stack| + 1
    ensures forall p | 0 <= p < |stack'| ::
      stack'[p] == if p < pos then stack[p] else if p == pos then i else stack[p - 1]
  {
    stack[..pos] + [i] + stack[pos..]
  }

  lemma MarksInserted(data: seq<int>, stack: seq<nat>, i: nat, r: int, pos: nat)
    requires LcmMarks(data, stack) && i < |data| && i !in stack && r >= 0 && pos <= |stack|
    ensures LcmMarks(data[i := r], Inserted(stack, i, pos))
  {
    var data', stack' := data[i := r], Inserted(stack, i, pos);
    forall att: nat | att < |data'| ensures data'[att] >= -1 && (data'[att] != -1 <==> att in stack') {
      if att in stack {
        var p :| 0 <= p < |stack| && stack[p] == att;
        assert stack'[if p < pos then p else p + 1] == att;
      }
      assert stack'[pos] == i;
    }
  }

  /** The sorted insertion of the rule i -> r into the top segment. */
  lemma LcmInserted(ctx: Context, l: seq<Implication>, frames: seq<Frame>, data: seq<int>, stack: seq<nat>,
                    i: nat, r: int, pos: nat)
    requires Within(l, ctx.Attributes()) && FramesOk(ctx, frames) && frames != []
    requires LcmOk(ctx, l, frames, data, stack) && i !in stack && i == frames[|frames| - 1].i
    requires Forces(ctx, l, frames[|frames| - 1].closed, i, r) && r !in frames[|frames| - 1].closed
    requires frames[|frames| - 1].snapshot <= pos <= |stack|
    requires forall q | frames[|frames| - 1].snapshot <= q < pos :: data[stack[q]] <= r
    requires forall q | pos <= q < |stack| :: r < data[stack[q]]
    ensures LcmOk(ctx, l, frames, data[i := r], Inserted(stack, i, pos))
  {
    hide FrameOk, Inside;
    var data', stack' := data[i := r], Inserted(stack, i, pos);
    var top := |frames| - 1;
    MarksInserted(data, stack, i, r, pos);
    forall k: nat | k + 1 < |frames| ensures ChildUnmarked(frames[k], stack'[..frames[k + 1].snapshot]) {
      assert stack'[..frames[k + 1].snapshot] == stack[..frames[k + 1].snapshot];
    }
    forall k: nat, p: nat | InSegment(frames, |stack'|, k, p) ensures LcmEntryOk(ctx, l, frames, data', stack'[p], k) {
      if p != pos {
        var p' := if p < pos then p else p - 1;
        assert InSegment(frames, |stack|, k, p');
        LcmEntryStays(ctx, l, frames, data, data', stack[p'], k);
      }
    }
    forall k: nat, p: nat, q: nat | p < q && InSegment(frames, |stack'|, k, p) && InSegment(frames, |stack'|, k, q)
      ensures data'[stack'[p]] <= data'[stack'[q]]
    {
      LcmInsertedSorted(frames, data, stack, i, r, pos, k, p, q);
    }
  }

  lemma LcmInsertedSorted(frames: seq<Frame>, data: seq<int>, stack: seq<nat>, i: nat, r: int, pos: nat,
                          k: nat, p: nat, q: nat)
    requires frames != [] && i < |data| && i !in stack && SnapshotsOk(frames, |stack|)
    requires forall p | 0 <= p < |stack| :: stack[p] < |data|
    requires frames[|frames| - 1].snapshot <= pos <= |stack|
    requires forall q | frames[|frames| - 1].snapshot <= q < pos :: data[stack[q]] <= r
    requires forall q | pos <= q < |stack| :: r < data[stack[q]]
    requires forall k: nat, p: nat, q: nat | p < q && InSegment(frames, |stack|, k, p)
      && InSegment(frames, |stack|, k, q) ::
          data[stack[p]] <= data[stack[q]]
    requires p < q && InSegment(frames, |stack| + 1, k, p) && InSegment(frames, |stack| + 1, k, q)
    ensures var stack' := Inserted(stack, i, pos);
      data[i := r][stack'[p]] <= data[i := r][stack'[q]]
  {
    var p' := if p < pos then p else p - 1;
    var q' := if q < pos then q else q - 1;
    if p != pos && q != pos {
      assert InSegment(frames, |stack|, k, p') && InSegment(frames, |stack|, k, q');
    }
  }

  lemma TopSorted(frames: seq<Frame>, data: seq<int>, stack: seq<nat>)
    requires frames != [] && LcmMarks(data, stack) && SnapshotsOk(frames, |stack|) && LcmSorted(frames, data, stack)
    ensures forall p, q | frames[|frames| - 1].snapshot <= p < q < |stack| :: data[stack[p]] <= data[stack[q]]
  {
    forall p, q | frames[|frames| - 1].snapshot <= p < q < |stack| ensures data[stack[p]] <= data[stack[q]] {
      assert InSegment(frames, |stack|, |frames| - 1, p) && InSegment(frames, |stack|, |frames| - 1, q);
    }
  }

  /** The rules of the top node all concern attributes that its current child may not add. */
  ghost predicate LcmReady(frames: seq<Frame>, data: seq<int>, stack: seq<nat>)
    requires frames != []
    requires forall p | 0 <= p < |stack| :: stack[p] < |data|
  {
    && frames[|frames| - 1].i !in stack
    && forall p: nat | frames[|frames| - 1].snapshot <= p < |stack| :: data[stack[p]] < frames[|frames| - 1].i
  }

  /** The list grows and the current child of the top node moves down. */
  lemma LcmGrows(ctx: Context, l: seq<Implication>, l': seq<Implication>, frames: seq<Frame>, frames': seq<Frame>,
                 data: seq<int>, stack: seq<nat>)
    requires Within(l, ctx.Attributes()) && Within(l', ctx.Attributes()) && l <= l'
    requires FramesOk(ctx, frames) && FramesOk(ctx, frames') && LcmOk(ctx, l, frames, data, stack)
    requires |frames'| == |frames| && SameBase(frames, frames', |stack|)
    requires forall k: nat | k < |frames| ::
        frames'[k].i <= frames[k].i && (k + 1 < |frames| ==> frames'[k].i == frames[k].i)
    ensures LcmOk(ctx, l', frames', data, stack)
  {
    forall k: nat, p: nat | InSegment(frames', |stack|, k, p)
      ensures InSegment(frames, |stack|, k, p) && LcmEntryOk(ctx, l', frames', data, stack[p], k)
    {
      assert InSegment(frames, |stack|, k, p);
      assert LcmEntryOk(ctx, l, frames, data, stack[p], k);
      ForcesMonotone(ctx, l, l', frames[k].closed, frames'[k].closed, stack[p], data[stack[p]]);
    }
  }

  /** A node is entered below the top node. */
  lemma LcmEntered(ctx: Context, l: seq<Implication>, frames: seq<Frame>, data: seq<int>, stack: seq<nat>, f: Frame)
    requires Within(l, ctx.Attributes())
    requires FramesOk(ctx, frames) && FramesOk(ctx, frames + [f]) && LcmOk(ctx, l, frames, data, stack)
    requires frames != [] ==> LcmReady(frames, data, stack)
    requires f.snapshot == |stack|
    ensures LcmOk(ctx, l, frames + [f], data, stack)
  {
    var frames' := frames + [f];
    forall k: nat | k + 1 < |frames'| ensures ChildUnmarked(frames'[k], stack[..frames'[k + 1].snapshot]) {
      if k + 1 < |frames| {
        assert ChildUnmarked(frames[k], stack[..frames[k + 1].snapshot]);
      }
    }
    forall k: nat, p: nat | InSegment(frames', |stack|, k, p)
      ensures InSegment(frames, |stack|, k, p) && LcmEntryOk(ctx, l, frames', data, stack[p], k)
    {
      assert k < |frames|;
      assert InSegment(frames, |stack|, k, p);
      assert LcmEntryOk(ctx, l, frames, data, stack[p], k);
    }
  }
}
