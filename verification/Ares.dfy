/** Ares: the AOC-poset, one attribute after the other. */
module Ares {
  import opened FiniteSets
  import opened FormalContext
  import opened LiveDiagram
  import opened AresTheory
  import opened AresStep
  import opened AresMoves
  import opened AresPhases
  import opened DynOrders
  import Reachability

  /** The rows when the largest concepts inside the column have left c for the column. */
  ghost function OpenedRows(ctx: Context, k: nat, s: Snap, c: nat): seq<set<nat>>
    requires k < |ctx.cols| && c < |s.lower|
  {
    var lo := MaxBelow(s.ext, s.live, ctx.cols[k]);
    s.lower[c := s.lower[c] - lo] + [lo]
  }

  /** The order with the column above what is inside it, and not yet below anything. */
  ghost function Opened(ctx: Context, k: nat, s: Snap, c: nat): Snap
    requires k < |ctx.cols| && c < |s.ext| && c < |s.lower| && c < |s.rext|
  {
    Snap(s.ext + [ctx.cols[k]], s.live + {|s.ext|}, OpenedRows(ctx, k, s, c),
         s.rext[c := Kept(ctx, k, s.ext[c])] + [Objs(ctx, k + 1, ctx.cols[k])], s.rint + [{k}])
  }

  class AresState {
    const ctx: Context
    const dyn: DynOrder
    var a: nat
    var inSub: set<nat>
    var subList: seq<nat>
    var nonIntro: set<nat>
    var nonIntroList: seq<nat>
    var doNotCheck: set<nat>
    var caDefined: bool
    var ca: nat
    ghost var past: Past

    ghost predicate Valid()
      reads this, dyn
    {
      dyn.Valid() && NoRepeats(subList) && ToSet(subList) == inSub && ToSet(nonIntroList) == nonIntro
    }

    ghost function View(): Snap
      reads dyn
    {
      Snap(dyn.ext, dyn.Live(), dyn.lower, dyn.rext, dyn.rint)
    }

    ghost function Marks(): Flags
      reads this
    {
      Flags(inSub, nonIntro, doNotCheck, caDefined, ca)
    }

    ghost predicate Visiting()
      reads this, dyn
    {
      ctx.Valid() && Valid() && StepOk(ctx, a, View(), Marks(), past)
    }

    /** The order holds the set of all objects alone. */
    constructor (ctx: Context, dyn: DynOrder)
      requires dyn.Valid()
      ensures this.ctx == ctx && this.dyn == dyn && Valid() && a == 0
    {
      this.ctx, this.dyn, a := ctx, dyn, 0;
      inSub, subList, nonIntro, nonIntroList, doNotCheck, caDefined, ca := {}, [], {}, [], {}, false, 0;
      past := Past({}, {}, map[], Snap([], {}, [], [], []));
    }

    method AddSub(c: nat)
      requires Valid()
      modifies `inSub, `subList
      ensures Valid() && inSub == old(inSub) + {c}
    {
      if c !in inSub {
        assert forall i | 0 <= i < |subList| :: subList[i] in ToSet(subList);
        assert ToSet(subList + [c]) == ToSet(subList) + {c};
        inSub, subList := inSub + {c}, subList + [c];
      }
    }

    method AddNonIntro(c: nat)
      requires Valid()
      modifies `nonIntro, `nonIntroList
      ensures Valid() && nonIntro == old(nonIntro) + {c}
    {
      if c !in nonIntro {
        assert ToSet(nonIntroList + [c]) == ToSet(nonIntroList) + {c};
        nonIntro, nonIntroList := nonIntro + {c}, nonIntroList + [c];
      }
    }

    // ---- the visit of a concept ----

    /** Case 1: the column is the extent of c. */
    method Equal(c: nat)
      requires Visiting() && Due(View(), past, c)
      requires a < |ctx.cols| && c < |dyn.ext| && dyn.ext[c] == ctx.cols[a]
      modifies dyn`rint
      ensures Valid() && AresOk(ctx, a + 1, View())
    {
      hide StepOk, EarlyOk, LateOk, AresOk, Due, Context.Valid, Mirrored, NoRepeats;
      ghost var s := View();
      EqualIsEarly(ctx, a, s, Marks(), past, c);
      Phases(ctx, a, s, Marks(), past);
      EqualOk(ctx, a, s, Marks(), past, c);
      dyn.rint := dyn.rint[c := dyn.rint[c] + {a}];
      assert View() == s.(rint := s.rint[c := s.rint[c] + {a}]);
    }

    /** Case 2: c lies inside the column. */
    method Inside(c: nat)
      requires Visiting() && Due(View(), past, c)
      requires a < |ctx.cols| && c < |dyn.ext| && dyn.ext[c] < ctx.cols[a]
      modifies `inSub, `subList, `past
      ensures Visiting() && past.s0 == old(past.s0) && past.done == old(past.done) + {c}
    {
      hide StepOk, Due, Context.Valid, Mirrored;
      InsideOk(ctx, a, View(), Marks(), past, c);
      AddSub(c);
      past := past.(done := past.done + {c});
    }

    /** Nothing to do. */
    ghost method LeaveAlone(c: nat)
      requires Visiting() && Due(View(), past, c)
      requires a < |ctx.cols| && c < |dyn.ext| && Idle(ctx, a, View(), Marks(), c)
        && (c in doNotCheck || !(dyn.ext[c] < ctx.cols[a]))
      modifies `past
      ensures Visiting() && past.s0 == old(past.s0) && past.done == old(past.done) + {c}
    {
      hide StepOk, Due, Idle, Context.Valid, Mirrored;
      IdleOk(ctx, a, View(), Marks(), past, c);
      past := past.(done := past.done + {c});
    }

    /** Case 4: neither contains the other. */
    method Neither(c: nat)
      requires Visiting() && Due(View(), past, c)
      requires a < |ctx.cols| && c < |dyn.ext| && Apart(dyn.ext[c], ctx.cols[a])
      modifies this, dyn
      ensures Visiting() && a == old(a) && past.s0 == old(past.s0) && past.done == old(past.done) + {c}
        && old(dyn.ext) <= dyn.ext
    {
      hide StepOk, Due, Context.Valid, Mirrored;
      var red := dyn.ReducedExtent(c);
      ReducedInStep(ctx, a, View(), Marks(), past, c, red);
      if red * ctx.cols[a] == {} {
        LeaveAlone(c);
      } else {
        MakeCut(c, red);
      }
    }

    method MakeCut(c: nat, red: set<nat>)
      requires Visiting() && Due(View(), past, c)
      requires a < |ctx.cols| && c < |dyn.ext| && NeedsCut(ctx, a, dyn.ext[c]) && red == Objs(ctx, a, dyn.ext[c])
      modifies this, dyn
      ensures Visiting() && a == old(a) && past.s0 == old(past.s0) && past.done == old(past.done) + {c}
        && old(dyn.ext) <= dyn.ext
    {
      hide StepOk, Due, Context.Valid, Mirrored, NeedsCut, Objs, Navigable, TopmostBelow, NoRepeats, Cut, ToSet;
      ghost var s, f, h := View(), Marks(), past;
      CutReady(ctx, a, s, f, h, c, dyn.upper);
      var c2 := DrawCut(c, red, red * ctx.cols[a], s);
      dyn.rext := dyn.rext[c := dyn.rext[c] - red * ctx.cols[a]];
      ghost var gone := dyn.rint[c] == {} && dyn.rext[c] == {};
      if dyn.rint[c] == {} && dyn.rext[c] == {} {
        AddNonIntro(c);
      }
      past := past.(done := past.done + {c}, born := past.born[c2 := c]);
      CutDone(ctx, a, s, f, h, c, red, View(), gone);
      assert Marks() == f.(inSub := f.inSub + {c2}, nonIntro := f.nonIntro + (if gone then {c} else {}));
    }

    /** The part of c in the column becomes a concept between c and the largest concepts seen
        inside both. */
    method DrawCut(c: nat, red: set<nat>, ec: set<nat>, ghost s: Snap) returns (c2: nat)
      requires Valid() && a < |ctx.cols| && c < |dyn.ext| && View() == s && Navigable(s.ext, s.live, s.lower)
      requires c in s.live && c !in inSub && inSub <= s.live <= Range(|s.ext|)
      modifies `inSub, `subList, dyn
      ensures Valid() && c2 == |s.ext| && inSub == old(inSub) + {c2}
      ensures |dyn.lower| == |s.ext| + 1 && TopmostBelow(s.ext, old(inSub), c, dyn.lower[c2])
      ensures View() == Snap(s.ext + [s.ext[c] * ctx.cols[a]], s.live + {c2}, Inserted(s.lower, dyn.lower[c2], {c}),
                             s.rext[c := s.rext[c] + red] + [ec], s.rint + [{}])
    {
      hide Navigable, Mirrored, TopmostBelow, NoRepeats, Inserted, Reachability.Reach;
      InRange(s.ext, s.live, s.lower);
      c2 := NewCut(c, red, ec, s);
      LeafReady(s.ext, s.live, s.lower, s.ext[c] * ctx.cols[a], c);
      var sel := SelectInside(c, s);
      dyn.Rehang(sel, c, c2);
      AddSub(c2);
      dyn.Unlink(c2, c);
      CutRows(s.lower, dyn.lower, c, ToSet(sel));
    }

    /** A concept without children below c, for the part of c in the column. */
    method NewCut(c: nat, red: set<nat>, ec: set<nat>, ghost s: Snap) returns (c2: nat)
      requires Valid() && a < |ctx.cols| && c < |dyn.ext| && View() == s && s.lower[c] <= Range(|s.ext|)
      modifies dyn
      ensures Valid() && c2 == |s.ext| == |s.lower|
      ensures View() == Snap(s.ext + [s.ext[c] * ctx.cols[a]], s.live + {c2}, WithLeaf(s.lower, c),
                             s.rext[c := s.rext[c] + red] + [ec], s.rint + [{}])
    {
      hide Mirrored, NoRepeats, ToSet;
      dyn.rext := dyn.rext[c := dyn.rext[c] + red];
      c2 := dyn.NewConcept();
      dyn.ext := dyn.ext[c2 := dyn.ext[c] * ctx.cols[a]];
      dyn.rext := dyn.rext[c2 := ec];
      dyn.AddEdge(c2, c);
    }

    /** The largest concepts seen inside the column and below c. */
    method SelectInside(c: nat, ghost s: Snap) returns (sel: seq<nat>)
      requires Valid() && a < |ctx.cols| && c < |s.ext| && Navigable(dyn.ext, s.live, dyn.lower)
      requires dyn.ext == s.ext + [s.ext[c] * ctx.cols[a]] && c in s.live && c !in inSub
        && inSub <= s.live <= Range(|s.ext|)
      ensures NoRepeats(sel) && TopmostBelow(s.ext, inSub, c, ToSet(sel))
      ensures forall v | v in sel :: v < |s.ext| && v != c
    {
      hide Navigable, Mirrored, TopmostBelow, NoRepeats, NoneAbove, SelectedBelow;
      sel := dyn.MaximalSelectedDescendants(c, inSub, s.live);
      SelectionIsTopmost(dyn.ext, inSub, c, sel);
      TopmostKept(s.ext, s.ext[c] * ctx.cols[a], inSub, c, ToSet(sel));
    }

    /** Case 3: c contains the column. */
    method Around(c: nat)
      requires Visiting() && Due(View(), past, c)
      requires a < |ctx.cols| && c < |dyn.ext| && ctx.cols[a] < dyn.ext[c] && c !in doNotCheck
      modifies this, dyn
      ensures Visiting() && a == old(a) && past.s0 == old(past.s0) && past.done == old(past.done) + {c}
        && old(dyn.ext) <= dyn.ext
    {
      hide StepOk, Due, Context.Valid, Mirrored;
      if caDefined {
        Join(c);
      } else {
        First(c);
      }
    }

    /** The edge from the column to c replaces those from below the column. */
    method DrawEdge(c: nat)
      requires Valid() && c < |dyn.ext| && ca < |dyn.ext| && c != ca && ca !in dyn.lower[c]
      modifies `doNotCheck, dyn`lower, dyn`upper
      ensures Valid() && dyn.lower == old(dyn.lower)[c := old(dyn.lower)[c] + {ca} - old(dyn.lower)[ca]]
      ensures forall p :: p in doNotCheck <==> p in old(doNotCheck) || Reachability.Reach(dyn.upper, c, p)
    {
      hide Mirrored, Reachability.Reach;
      dyn.AddEdge(ca, c);
      dyn.Unlink(ca, c);
      var up := dyn.Ancestors(c);
      doNotCheck := doNotCheck + up;
    }

    method Join(c: nat)
      requires Visiting() && Due(View(), past, c) && caDefined
      requires a < |ctx.cols| && c < |dyn.ext| && ctx.cols[a] < dyn.ext[c] && c !in doNotCheck
      modifies `doNotCheck, `past, dyn`lower, dyn`upper
      ensures Visiting() && past.s0 == old(past.s0) && past.done == old(past.done) + {c}
    {
      ghost var s, f, h := View(), Marks(), past;
      hide StepOk, EarlyOk, LateOk, Due, Context.Valid, Mirrored, Reached, MaxBelow, UpSet, Reachability.Reach,
          LiveHasse, Drawn, NoRepeats;
      Phases(ctx, a, s, f, h);
      JoinOk(ctx, a, s, f, h, c);
      UnderOk(ctx, a, s, f, h);
      JoinRow(ctx, a, h.under, h.done, c);
      NotUnderColumn(h.under.ext, h.under.live, ctx.cols[a], c);
      DrawEdge(c);
      past := past.(done := past.done + {c});
      JoinRows(ctx, a, h.under, h.done, c, dyn.lower);
      ghost var s' := Drawn(ctx, a, h.under, past.done);
      JoinRest(ctx, a, h.under, h.done, past.done);
      assert View() == s';
      SettledNow(ctx, a, h.under, past.done, dyn.upper, c, f.doNotCheck, doNotCheck);
      Phases(ctx, a, s', Marks(), past);
    }

    method First(c: nat)
      requires Visiting() && Due(View(), past, c) && !caDefined
      requires a < |ctx.cols| && c < |dyn.ext| && ctx.cols[a] < dyn.ext[c]
      modifies this, dyn
      ensures Visiting() && a == old(a) && past.s0 == old(past.s0) && past.done == old(past.done) + {c}
        && old(dyn.ext) <= dyn.ext
    {
      hide StepOk, EarlyOk, Due, Context.Valid, Mirrored, Navigable, Opened, Drawn, UpSet, Reachability.Reach,
          NoRepeats;
      ghost var s, f, h := View(), Marks(), past;
      FirstReady(ctx, a, s, f, h, c, dyn.upper);
      ghost var gone := OpenColumn(c, s, f, h);
      OpenedRow(ctx, a, s, c);
      DrawEdge(c);
      ghost var t := s.(rext := s.rext[c := Kept(ctx, a, s.ext[c])]);
      past := past.(done := past.done + {c}, under := t);
      FirstDone(ctx, a, s, f, h, c, dyn.lower, dyn.upper, doNotCheck, gone);
      assert View() == Drawn(ctx, a, t, past.done);
      assert Marks() == Flags(f.inSub, f.nonIntro + (if gone then {c} else {}), doNotCheck, true, |s.ext|);
    }

    /** The concept of the column, above the largest concepts seen inside it; they leave c. */
    method OpenColumn(c: nat, ghost s: Snap, ghost f: Flags, ghost h: Past) returns (ghost gone: bool)
      requires Valid() && ctx.Valid() && View() == s && Marks() == f && past == h && EarlyOk(ctx, a, s, f, h)
        && Due(s, h, c) && !caDefined
      requires a < |ctx.cols| && c < |s.ext| && ctx.cols[a] < s.ext[c] && Navigable(s.ext, s.live, s.lower)
      requires |s.rext| == |s.rint| == |s.lower| == |s.ext| && f.inSub <= s.live <= Range(|s.ext|)
      modifies `caDefined, `ca, `nonIntro, `nonIntroList, dyn
      ensures Valid() && caDefined && ca == |s.ext|
      ensures View() == Opened(ctx, a, s, c)
      ensures gone == (Moved(ctx, a, s.ext[c]) != {} && s.rint[c] == {} && Objs(ctx, a, s.ext[c]) - ctx.cols[a] == {})
      ensures nonIntro == f.nonIntro + if gone then {c} else {}
    {
      hide EarlyOk, Due, Context.Valid, Mirrored, Navigable, MaxBelow, Objs, Moved, Kept, NoRepeats, IsReduced,
          NoneAbove, ToSet, OpenedRows;
      NewColumn();
      gone := KeepRest(c, s, f, h);
      MoveInside(c, s, f, h);
      var tmp := dyn.ReducedExtent(ca);
      ReducedLater(s.ext, dyn.ext, dyn.lower[ca], ctx.cols[a], tmp);
      ReducedAtFirst(ctx, a, s, f, h, c, tmp);
      dyn.rext := dyn.rext[ca := tmp];
    }

    method NewColumn()
      requires Valid() && a < |ctx.cols|
      modifies `caDefined, `ca, dyn
      ensures Valid() && caDefined && ca == |old(dyn.ext)| && dyn.Live() == old(dyn.Live()) + {ca}
      ensures dyn.ext == old(dyn.ext) + [ctx.cols[a]] && dyn.lower == old(dyn.lower) + [{}]
      ensures dyn.rint == old(dyn.rint) + [{a}] && dyn.rext == old(dyn.rext) + [{}]
    {
      hide Mirrored, NoRepeats;
      ca := dyn.NewConcept();
      caDefined := true;
      dyn.rint := dyn.rint[ca := dyn.rint[ca] + {a}];
      dyn.ext := dyn.ext[ca := dyn.ext[ca] + ctx.cols[a]];
      assert {} + ctx.cols[a] == ctx.cols[a] && {} + {a} == {a};
    }

    /** The largest concepts seen inside the column go from below c to below it. */
    method MoveInside(c: nat, ghost s: Snap, ghost f: Flags, ghost h: Past)
      requires Valid() && inSub == f.inSub && EarlyOk(ctx, a, s, f, h) && Due(s, h, c) && ca == |s.ext|
      requires a < |ctx.cols| && c < |s.ext| && ctx.cols[a] < s.ext[c] && Navigable(s.ext, s.live, s.lower)
      requires |s.rext| == |s.rint| == |s.lower| == |s.ext| && f.inSub <= s.live <= Range(|s.ext|)
      requires dyn.ext == s.ext + [ctx.cols[a]] && dyn.lower == s.lower + [{}]
      modifies dyn`lower, dyn`upper
      ensures Valid() && dyn.lower == OpenedRows(ctx, a, s, c)
      ensures dyn.lower[ca] == MaxBelow(s.ext, s.live, ctx.cols[a]) && forall d | d in dyn.lower[ca] :: d < |s.ext|
    {
      hide EarlyOk, Due, Context.Valid, Mirrored, Navigable, MaxBelow, NoRepeats, NoneAbove;
      NavigableGrown(s.ext, s.live, s.lower, ctx.cols[a]);
      var sel := dyn.MaximalOf(subList, s.live);
      SelectedIsLower(ctx, a, s, f, h, c, sel);
      assert forall v | v in sel :: v in inSub && v < |s.ext|;
      assert forall v | v in ToSet(sel) :: v in sel;
      ghost var lo := MaxBelow(s.ext, s.live, ctx.cols[a]);
      assert {} + ToSet(sel) == lo;
      dyn.Rehang(sel, c, ca);
      assert dyn.lower == (s.lower + [{}])[ca := lo][c := s.lower[c] - lo];
      assert dyn.lower == s.lower[c := s.lower[c] - lo] + [lo];
    }

    /** c keeps its objects outside the column. */
    method KeepRest(c: nat, ghost s: Snap, ghost f: Flags, ghost h: Past) returns (ghost gone: bool)
      requires Valid() && ctx.Valid() && EarlyOk(ctx, a, s, f, h) && Due(s, h, c)
      requires a < |ctx.cols| && c < |s.ext| && ctx.cols[a] < s.ext[c] && |s.rext| == |s.rint| == |s.lower| == |s.ext|
      requires dyn.ext == s.ext + [ctx.cols[a]] && dyn.lower == s.lower + [{}] && dyn.rext == s.rext + [{}]
        && |dyn.rint| > c && dyn.rint[c] == s.rint[c]
      requires nonIntro == f.nonIntro
      modifies `nonIntro, `nonIntroList, dyn`rext
      ensures Valid() && dyn.rext == s.rext[c := Kept(ctx, a, s.ext[c])] + [{}]
      ensures gone == (Moved(ctx, a, s.ext[c]) != {} && s.rint[c] == {} && Objs(ctx, a, s.ext[c]) - ctx.cols[a] == {})
      ensures nonIntro == f.nonIntro + if gone then {c} else {}
    {
      hide Context.Valid, EarlyOk, Objs, Mirrored, IsReduced, ToSet, Next, ObjExt;
      gone := Moved(ctx, a, s.ext[c]) != {} && s.rint[c] == {} && Objs(ctx, a, s.ext[c]) - ctx.cols[a] == {};
      KeptIs(ctx, a, s.ext[c]);
      hide StepOk, LateOk, Due, Moved, Kept, LiveHasse, NoRepeats;
      DueEarly(ctx, a, s, f, h, c);
      var red := dyn.ReducedExtent(c);
      RowInRange(ctx, a, s, f, h, c);
      ReducedLater(s.ext, dyn.ext, s.lower[c], s.ext[c], red);
      ReducedEarly(ctx, a, s, f, h, c, red);
      assert s.rext[c] + red == red;
      Keep(c, red);
    }

    method Keep(c: nat, red: set<nat>)
      requires Valid() && a < |ctx.cols| && c < |dyn.rext|
      modifies `nonIntro, `nonIntroList, dyn`rext
      ensures Valid()
      ensures var both := old(dyn.rext)[c] + red;
        var rest := if red * ctx.cols[a] != {} then both - ctx.cols[a] else both;
        var gone := red * ctx.cols[a] != {} && dyn.rint[c] == {} && rest == {};
        dyn.rext == old(dyn.rext)[c := rest] && nonIntro == old(nonIntro) + if gone then {c} else {}
    {
      hide Mirrored, NoRepeats;
      dyn.rext := dyn.rext[c := dyn.rext[c] + red];
      if red * ctx.cols[a] != {} {
        dyn.rext := dyn.rext[c := dyn.rext[c] - ctx.cols[a]];
        if dyn.rint[c] == {} && dyn.rext[c] == {} {
          AddNonIntro(c);
        }
      }
    }

    /** One concept; false when the column turns out to be its extent. */
    method Visit(c: nat) returns (go: bool)
      requires Visiting() && Due(View(), past, c)
      modifies this, dyn
      ensures Valid() && a == old(a)
      ensures go ==>
        Visiting() && past.s0 == old(past.s0) && past.done == old(past.done) + {c} && old(dyn.ext) <= dyn.ext
      ensures !go ==> AresOk(ctx, a + 1, View())
    {
      hide StepOk, Due, Context.Valid, Mirrored, NeedsCut, AresOk, NoRepeats, Idle, ToSet;
      DueInRange(ctx, a, View(), Marks(), past, c);
      go := true;
      var skip := c in nonIntro || c in doNotCheck
        || (|dyn.ext[c]| != 0 && |ctx.cols[a]| != 0 && dyn.ext[c] * ctx.cols[a] == {});
      if skip {
        SkippedIsIdle(ctx, a, View(), Marks(), c);
        LeaveAlone(c);
        return;
      }
      go := Switch(c);
    }

    /** The four cases, told apart by the size of the intersection. */
    method Switch(c: nat) returns (go: bool)
      requires Visiting() && Due(View(), past, c) && a < |ctx.cols| && c < |dyn.ext| && c !in doNotCheck
      modifies this, dyn
      ensures Valid() && a == old(a)
      ensures go ==>
        Visiting() && past.s0 == old(past.s0) && past.done == old(past.done) + {c} && old(dyn.ext) <= dyn.ext
      ensures !go ==> AresOk(ctx, a + 1, View())
    {
      hide StepOk, Due, Context.Valid, Mirrored, NeedsCut, AresOk, NoRepeats;
      go := true;
      var inter := dyn.ext[c] * ctx.cols[a];
      InterCard(dyn.ext[c], ctx.cols[a]);
      InterCard(ctx.cols[a], dyn.ext[c]);
      assert ctx.cols[a] * dyn.ext[c] == inter;
      var cInA, aInC := |inter| == |dyn.ext[c]|, |inter| == |ctx.cols[a]|;
      if cInA && aInC {
        Equal(c);
        go := false;
      } else if cInA {
        Inside(c);
      } else if aInC {
        Around(c);
      } else {
        Neither(c);
      }
    }

    // ---- the end of a step ----

    /** A column that no concept contains goes to the top. */
    method ColumnOnTop()
      requires Visiting() && past.done == past.s0 && !caDefined
      modifies `ca, dyn
      ensures Valid() && Finished(ctx, a, View(), nonIntro)
    {
      hide Intro, Before;
      ghost var s, f, h := View(), Marks(), past;
      hide StepOk, EarlyOk, LateOk, Context.Valid, Mirrored, Navigable, Finished, NoRepeats, Objs, MaxBelow,
          Drawn, Reached;
      Phases(ctx, a, s, f, h);
      FinishEarly(ctx, a, s, f, h);
      SelectionOk(ctx, a, s, f, h);
      HasseNavigable(s.ext, s.live, s.lower, dyn.upper);
      ca := dyn.NewConcept();
      dyn.ext := dyn.ext[ca := ctx.cols[a]];
      dyn.rint := dyn.rint[ca := dyn.rint[ca] + {a}];
      NavigableGrown(s.ext, s.live, s.lower, ctx.cols[a]);
      assert dyn.ext == s.ext + [ctx.cols[a]] && {} + {a} == {a};
      var sel := dyn.MaximalOf(subList, s.live);
      TopIsLower(ctx, a, s, f, h, sel);
      assert forall v | v in sel :: v in inSub && v < |s.ext|;
      dyn.Hang(sel, ca);
      ghost var lo := MaxBelow(s.ext, s.live, ctx.cols[a]);
      assert {} + ToSet(sel) == lo;
      assert dyn.lower == s.lower + [lo];
      TopDrawn(ctx, a, s, h.s0);
      assert View() == Drawn(ctx, a, s, h.s0);
    }

    /** The attributes of r go to what is directly below it. */
    method PassIntent(r: nat)
      requires Valid() && r < |dyn.rint|
      modifies dyn`rint
      ensures Valid() && forall d | 0 <= d < |dyn.rint| ::
          dyn.rint[d] == if d in dyn.lower[r] then old(dyn.rint)[d] + old(dyn.rint)[r] else old(dyn.rint)[d]
    {
      hide Mirrored, NoRepeats;
      if dyn.rint[r] != {} {
        for d := 0 to |dyn.rint|
          invariant |dyn.rint| == |old(dyn.rint)|
          invariant forall e | 0 <= e < |dyn.rint| ::
              dyn.rint[e] == if e < d && e in dyn.lower[r] then old(dyn.rint)[e] + old(dyn.rint)[r]
                else old(dyn.rint)[e]
        {
          if d in dyn.lower[r] {
            dyn.rint := dyn.rint[d := dyn.rint[d] + dyn.rint[r]];
          }
        }
      }
    }

    /** Those that introduce nothing any more are removed one by one. */
    method RemoveNonIntroducers()
      requires ctx.Valid() && Valid() && Finished(ctx, a, View(), nonIntro)
      modifies dyn
      ensures Valid() && AresOk(ctx, a + 1, View())
    {
      hide Context.Valid, AresOk, Mirrored, Removing, Pending, LiveHasse, Mid, Intro, Dropped;
      StartRemoving(ctx, a, View(), nonIntro);
      hide NoRepeats, Finished;
      assert nonIntroList[0..] == nonIntroList;
      PendingList(ctx, a, View(), nonIntro, nonIntroList);
      for i := 0 to |nonIntroList|
        invariant Valid() && Removing(ctx, a, View()) && Pending(ctx, a, View(), nonIntroList[i..])
      {
        assert nonIntroList[i..] == [nonIntroList[i]] + nonIntroList[i + 1..];
        PendingHead(ctx, a, View(), nonIntroList[i], nonIntroList[i + 1..]);
        if dyn.alive[nonIntroList[i]] {
          RemoveNow(nonIntroList[i], nonIntroList[i + 1..]);
        } else {
          PendingDead(ctx, a, View(), nonIntroList[i], nonIntroList[i + 1..]);
        }
      }
      NothingPending(ctx, a, View());
    }

    method RemoveNow(r: nat, ghost rest: seq<nat>)
      requires Valid() && Removing(ctx, a, View()) && Pending(ctx, a, View(), [r] + rest)
      requires a < |ctx.cols| && r < |dyn.ext| && r in dyn.Live() && Dropped(ctx, a, dyn.ext[r])
      modifies dyn
      ensures Valid() && Removing(ctx, a, View()) && Pending(ctx, a, View(), rest)
    {
      ghost var s := View();
      RemoveDropped(ctx, a, s, r);
      RemovingHasse(ctx, a, s);
      PendingLater(ctx, a, s, r, rest, s.(live := s.live - {r}, lower := Removed(s.ext, s.live, s.lower, r)));
      hide Context.Valid, Mirrored, NoRepeats, Removing, Pending, LiveHasse, Dropped;
      PassIntent(r);
      assert forall d | 0 <= d < |dyn.rint| :: s.rint[d] + {} == s.rint[d];
      assert dyn.rint == s.rint;
      dyn.Remove(r);
      assert View() == s.(live := s.live - {r}, lower := Removed(s.ext, s.live, s.lower, r));
    }

    /** One attribute. */
    method Step(k: nat)
      requires ctx.Valid() && Valid() && k < |ctx.cols| && AresOk(ctx, k, View())
      modifies this, dyn
      ensures Valid() && AresOk(ctx, k + 1, View())
    {
      hide *;
      Begin(k);
      var go := VisitAll();
      if go {
        Settle();
        RemoveNonIntroducers();
      }
    }

    /** Before the first visit. */
    method Begin(k: nat)
      requires ctx.Valid() && Valid() && k < |ctx.cols| && AresOk(ctx, k, View())
      modifies this
      ensures a == k && Visiting() && past.s0 == dyn.Live() && past.done == {}
      ensures forall c | c in dyn.Live() :: c < |dyn.ext| && |dyn.ext[c]| <= |ctx.rows|
    {
      hide Context.Valid, AresOk, StepOk, DynOrder.Valid, NoRepeats, ToSet;
      SmallExtents(ctx, k, View());
      Reset(k);
      StartOk(ctx, k, View(), Marks(), past);
    }

    method Reset(k: nat)
      requires dyn.Valid()
      modifies this
      ensures Valid() && a == k && Marks() == Flags({}, {}, {}, false, 0) && past == Past(dyn.Live(), {}, map[], View())
    {
      EmptyList();
      hide NoRepeats, ToSet, DynOrder.Valid, View;
      a, caDefined, ca := k, false, 0;
      inSub, subList, nonIntro, nonIntroList, doNotCheck := {}, [], {}, [], {};
      past := Past(dyn.Live(), {}, map[], View());
    }

    /** After the last visit: a column that no concept contains comes on top. */
    method Settle()
      requires Visiting() && past.done == past.s0
      modifies `ca, dyn
      ensures Valid() && Finished(ctx, a, View(), nonIntro)
    {
      hide StepOk, LateOk, EarlyOk, Finished, Context.Valid, Mirrored, NoRepeats;
      if caDefined {
        Phases(ctx, a, View(), Marks(), past);
        FinishLate(ctx, a, View(), Marks(), past);
      } else {
        ColumnOnTop();
      }
    }

    /** Visits the concepts of the beginning, from the smallest extents to the largest. */
    method VisitAll() returns (go: bool)
      requires Visiting() && past.s0 == dyn.Live() && past.done == {}
        && forall c | c in dyn.Live() :: c < |dyn.ext| && |dyn.ext[c]| <= |ctx.rows|
      modifies this, dyn
      ensures Valid() && a == old(a)
      ensures go ==> Visiting() && past.done == past.s0
      ensures !go ==> AresOk(ctx, a + 1, View())
    {
      hide Context.Valid, Mirrored, AresOk, StepOk, Due;
      var order := dyn.SortByExtent(|ctx.rows|);
      ghost var s0, ext0 := past.s0, dyn.ext;
      for i := 0 to |order|
        invariant Visiting() && a == old(a) && past.s0 == s0 && past.done == ToSet(order[..i]) && ext0 <= dyn.ext
      {
        OneMore(order, i);
        InTurn(View(), past, ext0, s0, order, i);
        StillAlive(ctx, a, View(), Marks(), past, order[i]);
        if dyn.alive[order[i]] {
          go := Visit(order[i]);
          if !go {
            return;
          }
        }
      }
      assert order[..|order|] == order;
      go := true;
    }
  }

  lemma SkippedIsIdle(ctx: Context, k: nat, s: Snap, f: Flags, c: nat)
    requires ctx.Valid() && k < |ctx.cols| && c < |s.ext|
    requires c in f.doNotCheck || (|s.ext[c]| != 0 && |ctx.cols[k]| != 0 && s.ext[c] * ctx.cols[k] == {})
    ensures Idle(ctx, k, s, f, c) && (c in f.doNotCheck || !(s.ext[c] < ctx.cols[k]))
  {
    if c !in f.doNotCheck { DisjointIsIdle(ctx, k, s, f, c); }
  }

  lemma OneMore(order: seq<nat>, i: nat)
    requires i < |order|
    ensures ToSet(order[..i + 1]) == ToSet(order[..i]) + {order[i]}
  {
    assert order[..i + 1] == order[..i] + [order[i]];
  }

  // ---- steps ----

  lemma TopIsLower(ctx: Context, k: nat, s: Snap, f: Flags, h: Past, sel: seq<nat>)
    requires EarlyOk(ctx, k, s, f, h) && k < |ctx.cols| && h.done == h.s0
    requires forall v :: v in sel <==> v in f.inSub && NoneAbove(s.ext + [ctx.cols[k]], f.inSub, v)
    ensures ToSet(sel) == MaxBelow(s.ext, s.live, ctx.cols[k])
  {
    SelectionOk(ctx, k, s, f, h);
    hide EarlyOk, MaxBelow;
    forall v | v in f.inSub ensures NoneAbove(s.ext + [ctx.cols[k]], f.inSub, v) <==> NoneAbove(s.ext, f.inSub, v) {
      NoneAboveKept(s.ext, ctx.cols[k], f.inSub, v);
    }
    hide NoneAbove, LiveHasse;
    MaximalIsLower(ctx, k, s, f, h, ToSet(sel));
  }

  lemma TopDrawn(ctx: Context, k: nat, s: Snap, done: set<nat>)
    requires k < |ctx.cols| && |s.lower| == |s.ext| && Reached(ctx, k, s.ext, s.live, done) == {}
      && Objs(ctx, k + 1, ctx.cols[k]) == {}
    ensures Drawn(ctx, k, s, done) == Snap(s.ext + [ctx.cols[k]], s.live + {|s.ext|},
                                           s.lower + [MaxBelow(s.ext, s.live, ctx.cols[k])], s.rext + [{}],
                                               s.rint + [{k}])
  {
    hide Reached, MaxBelow, Objs;
    var lo := MaxBelow(s.ext, s.live, ctx.cols[k]);
    assert Inserted(s.lower, lo, {}) == s.lower + [lo];
  }

  /** Every living concept that introduces nothing any more is still on the list. */
  ghost predicate Pending(ctx: Context, k: nat, s: Snap, list: seq<nat>) {
    && k < |ctx.cols|
    && (forall c | c in s.live :: c < |s.ext| && (Dropped(ctx, k, s.ext[c]) ==> c in list))
    && forall c | c in list :: c < |s.ext| && Dropped(ctx, k, s.ext[c])
  }

  lemma StartRemoving(ctx: Context, k: nat, s: Snap, nonIntro: set<nat>)
    requires Finished(ctx, k, s, nonIntro)
    ensures Removing(ctx, k, s) && !Intro(ctx, k, ctx.cols[k])
  {
    hide Intro, Dropped, MidOk, LiveHasse, HasExt, CutOut;
  }

  lemma PendingList(ctx: Context, k: nat, s: Snap, nonIntro: set<nat>, list: seq<nat>)
    requires Finished(ctx, k, s, nonIntro) && ToSet(list) == nonIntro
    ensures Pending(ctx, k, s, list)
  {
    assert k < |ctx.cols|;
    hide Mid, Intro, Dropped;
    assert forall c :: c in list <==> c in nonIntro;
  }

  lemma PendingHead(ctx: Context, k: nat, s: Snap, r: nat, rest: seq<nat>)
    requires Pending(ctx, k, s, [r] + rest)
    ensures k < |ctx.cols| && r < |s.ext| && Dropped(ctx, k, s.ext[r])
  {
    hide Dropped;
    assert r in [r] + rest;
  }

  lemma PendingLater(ctx: Context, k: nat, s: Snap, r: nat, rest: seq<nat>, s': Snap)
    requires Pending(ctx, k, s, [r] + rest) && s'.ext == s.ext && s'.live == s.live - {r}
    ensures Pending(ctx, k, s', rest)
  {
    hide Dropped;
    assert forall c :: c in [r] + rest <==> c == r || c in rest;
  }

  lemma PendingDead(ctx: Context, k: nat, s: Snap, r: nat, rest: seq<nat>)
    requires Pending(ctx, k, s, [r] + rest) && r !in s.live
    ensures Pending(ctx, k, s, rest)
  {
    assert s.live - {r} == s.live;
    PendingLater(ctx, k, s, r, rest, s);
  }

  lemma RemovingHasse(ctx: Context, k: nat, s: Snap)
    requires Removing(ctx, k, s)
    ensures LiveHasse(s.ext, s.live, s.lower) && |s.rext| == |s.rint| == |s.ext|
  {}

  lemma NothingPending(ctx: Context, k: nat, s: Snap)
    requires ctx.Valid() && Removing(ctx, k, s) && Pending(ctx, k, s, []) && !Intro(ctx, k, ctx.cols[k])
    ensures AresOk(ctx, k + 1, s)
  {
    hide Dropped, Removing, Intro, AresOk, Context.Valid;
    RemovedIsOk(ctx, k, s);
  }

  lemma EmptyList()
    ensures NoRepeats([]) && ToSet([]) == {}
  {}

  lemma SmallExtents(ctx: Context, k: nat, s: Snap)
    requires ctx.Valid() && AresOk(ctx, k, s)
    ensures forall c | c in s.live :: c < |s.ext| && |s.ext[c]| <= |ctx.rows|
  {
    forall c | c in s.live ensures c < |s.ext| && |s.ext[c]| <= |ctx.rows| {
      IntroInside(ctx, k, s.ext[c]);
      SubsetCard(s.ext[c], ctx.Objects());
      RangeCard(|ctx.rows|);
    }
  }

  /** The next concept of the order is due. */
  lemma InTurn(s: Snap, h: Past, ext0: seq<set<nat>>, s0: set<nat>, order: seq<nat>, i: nat)
    requires NoRepeats(order) && ToSet(order) == s0 && i < |order| && ext0 <= s.ext
    requires forall p, q | 0 <= p <= q < |order| ::
        order[p] < |ext0| && order[q] < |ext0| && |ext0[order[p]]| <= |ext0[order[q]]|
    requires h.s0 == s0 && h.done == ToSet(order[..i])
    ensures Due(s, h, order[i])
  {
    var c := order[i];
    assert c in ToSet(order);
    assert c !in order[..i];
    forall d | d in s0 ensures d < |s.ext| && (|s.ext[d]| < |s.ext[c]| ==> d in h.done) {
      assert d in order;
      var p :| 0 <= p < |order| && order[p] == d;
      assert s.ext[d] == ext0[d] && s.ext[c] == ext0[c];
      if p < i { assert order[..i][p] == d; }
    }
    forall d | d in h.done && d in s0 ensures d < |s.ext| && |s.ext[d]| <= |s.ext[c]| {
      var p :| 0 <= p < i && order[..i][p] == d;
      assert order[p] == d;
    }
  }

  lemma StillAlive(ctx: Context, k: nat, s: Snap, f: Flags, h: Past, c: nat)
    requires StepOk(ctx, k, s, f, h) && Due(s, h, c)
    ensures c in s.live && c < |s.ext|
  {
    if f.caDefined {
      DueLate(ctx, k, s, f, h, c);
      hide Around, LiveHasse, Settled;
    } else {
      hide LiveHasse, Subs, DroppedIn;
    }
  }

  // ---- rows ----

  /** The rows with one more concept, without children and below c. */
  ghost function WithLeaf(lower: seq<set<nat>>, c: nat): seq<set<nat>>
    requires c < |lower|
  {
    (lower + [{}])[c := lower[c] + {|lower|}]
  }

  lemma LeafReady(ext: seq<set<nat>>, live: set<nat>, lower: seq<set<nat>>, e: set<nat>, c: nat)
    requires Navigable(ext, live, lower) && c in live && c < |lower|
    ensures Navigable(ext + [e], live, WithLeaf(lower, c))
  {
    InRange(ext, live, lower);
    hide Navigable;
    NavigableGrown(ext, live, lower, e);
    NavigableWithLeaf(ext + [e], live, lower + [{}], c, |ext|);
  }

  lemma CutRows(lower0: seq<set<nat>>, lower: seq<set<nat>>, c: nat, lo: set<nat>)
    requires c < |lower0| && |lower| == |lower0| + 1 && (forall v | v in lo :: v < |lower0|)
    requires lower[c] == lower0[c] + {|lower0|} - lo - lo && lower[|lower0|] == lo
    requires forall p | 0 <= p < |lower0| && p != c :: lower[p] == lower0[p]
    ensures lower == Inserted(lower0, lo, {c})
  {
    var goal := Inserted(lower0, lo, {c});
    forall p | 0 <= p < |lower| ensures lower[p] == goal[p] {}
  }

  lemma CutView(ctx: Context, k: nat, s: Snap, s': Snap, c: nat, red: set<nat>)
    requires k < |ctx.cols| && c < |s.ext| == |s.rext| && red == Objs(ctx, k, s.ext[c]) == s.rext[c]
    requires s'.ext == s.ext + [s.ext[c] * ctx.cols[k]] && s'.live == s.live + {|s.ext|} && s'.rint == s.rint + [{}]
    requires s'.lower == Inserted(s.lower, MaxBelow(s.ext, s.live, s.ext[c] * ctx.cols[k]), {c})
    requires s'.rext == (s.rext[c := s.rext[c] + red] + [red * ctx.cols[k]])[c := s.rext[c] + red - red * ctx.cols[k]]
    ensures s' == Cut(ctx, k, s, c) && s'.rext[c] == Objs(ctx, k, s.ext[c]) - ctx.cols[k]
  {
    hide Objs, MaxBelow;
    assert s.rext[c] + red - red * ctx.cols[k] == red - ctx.cols[k];
  }

  lemma KeptIs(ctx: Context, k: nat, x: set<nat>)
    requires k < |ctx.cols|
    ensures Moved(ctx, k, x) == Objs(ctx, k, x) * ctx.cols[k]
    ensures Kept(ctx, k, x) == if Moved(ctx, k, x) != {} then Objs(ctx, k, x) - ctx.cols[k] else Objs(ctx, k, x)
  {}

  lemma CutReady(ctx: Context, k: nat, s: Snap, f: Flags, h: Past, c: nat, upper: seq<set<nat>>)
    requires ctx.Valid() && StepOk(ctx, k, s, f, h) && Due(s, h, c) && Mirrored(s.lower, upper)
    requires k < |ctx.cols| && c < |s.ext| && NeedsCut(ctx, k, s.ext[c])
    ensures !f.caDefined && Navigable(s.ext, s.live, s.lower)
    ensures c in s.live && c !in f.inSub && f.inSub <= s.live <= Range(|s.ext|) && |s.rext| == |s.rint| == |s.ext|
  {
    EqualIsEarly(ctx, k, s, f, h, c);
    Phases(ctx, k, s, f, h);
    assert !(s.ext[c] <= ctx.cols[k]);
    hide StepOk, LateOk, NeedsCut, Navigable, Context.Valid;
    assert c in s.live by { hide LiveHasse, Labels, Origin, Births, Paid, InOrder; }
    SelectionOk(ctx, k, s, f, h);
    hide EarlyOk, Due;
    NotInSelection(s, f, h, c, ctx.cols[k]);
    HasseNavigable(s.ext, s.live, s.lower, upper);
  }

  lemma CutDone(ctx: Context, k: nat, s: Snap, f: Flags, h: Past, c: nat, red: set<nat>, s': Snap, gone: bool)
    requires ctx.Valid() && StepOk(ctx, k, s, f, h) && Due(s, h, c) && !f.caDefined
    requires k < |ctx.cols| && c < |s.ext| == |s.rext| == |s.rint| && NeedsCut(ctx, k, s.ext[c])
      && red == Objs(ctx, k, s.ext[c])
    requires |s'.lower| == |s.ext| + 1 && TopmostBelow(s.ext, f.inSub, c, s'.lower[|s.ext|])
    requires s'.ext == s.ext + [s.ext[c] * ctx.cols[k]] && s'.live == s.live + {|s.ext|} && s'.rint == s.rint + [{}]
    requires s'.lower == Inserted(s.lower, s'.lower[|s.ext|], {c})
    requires s'.rext == (s.rext[c := s.rext[c] + red] + [red * ctx.cols[k]])[c := s.rext[c] + red - red * ctx.cols[k]]
    requires gone == (s.rint[c] == {} && s'.rext[c] == {})
    ensures StepOk(ctx, k, s', f.(inSub := f.inSub + {|s.ext|}, nonIntro := f.nonIntro + (if gone then {c} else {})),
                   h.(done := h.done + {c}, born := h.born[|s.ext| := c]))
  {
    Phases(ctx, k, s, f, h);
    hide EarlyOk, LateOk, Due, NeedsCut, Objs, MaxBelow, TopmostBelow, Cut;
    DueEarly(ctx, k, s, f, h, c);
    TopmostIsLower(ctx, k, s, f, h, c, s'.lower[|s.ext|]);
    CutView(ctx, k, s, s', c, red);
    CutOk(ctx, k, s, f, h, c);
  }

  lemma SelectionIsTopmost(ext: seq<set<nat>>, inSub: set<nat>, c: nat, sel: seq<nat>)
    requires c < |ext| && forall v ::
        v in sel <==> v in inSub && v < |ext| && ext[v] < ext[c] && NoneAbove(ext, SelectedBelow(ext, inSub, c), v)
    ensures TopmostBelow(ext, inSub, c, ToSet(sel))
  {}

  lemma NotInSelection(s: Snap, f: Flags, h: Past, c: nat, col: set<nat>)
    requires c < |s.ext| && (forall y | y in f.inSub :: y < |s.ext| && s.ext[y] < col) && !(s.ext[c] <= col)
    ensures c !in f.inSub
  {}

  lemma NewNotBelow(s: Snap, c: nat)
    requires LiveHasse(s.ext, s.live, s.lower) && c < |s.ext|
    ensures |s.lower| == |s.ext| && |s.ext| !in s.lower[c]
  {}

  lemma NotUnderColumn(ext: seq<set<nat>>, live: set<nat>, col: set<nat>, c: nat)
    requires c < |ext| && col <= ext[c]
    ensures c !in MaxBelow(ext, live, col) && |ext| !in MaxBelow(ext, live, col)
  {}

  lemma RowInRange(ctx: Context, k: nat, s: Snap, f: Flags, h: Past, c: nat)
    requires EarlyOk(ctx, k, s, f, h) && c < |s.ext|
    ensures |s.lower| == |s.ext| && forall d | d in s.lower[c] :: d < |s.ext|
  {
    hide Sets, Labels, InOrder, Subs, DroppedIn;
    AresPhases.CoversInRange(s.ext, s.live, s.lower, c);
  }

  lemma SelectedIsLower(ctx: Context, k: nat, s: Snap, f: Flags, h: Past, c: nat, sel: seq<nat>)
    requires EarlyOk(ctx, k, s, f, h) && Due(s, h, c) && k < |ctx.cols| && c < |s.ext| && ctx.cols[k] <= s.ext[c]
    requires forall v :: v in sel <==> v in f.inSub && NoneAbove(s.ext + [ctx.cols[k]], f.inSub, v)
    ensures ToSet(sel) == MaxBelow(s.ext, s.live, ctx.cols[k])
  {
    SelectionOk(ctx, k, s, f, h);
    InsideSeen(s, h, c, ctx.cols[k]);
    hide EarlyOk, Due, MaxBelow;
    forall v | v in f.inSub ensures NoneAbove(s.ext + [ctx.cols[k]], f.inSub, v) <==> NoneAbove(s.ext, f.inSub, v) {
      NoneAboveKept(s.ext, ctx.cols[k], f.inSub, v);
    }
    hide NoneAbove, LiveHasse;
    MaximalIsLower(ctx, k, s, f, h, ToSet(sel));
  }

  lemma UnderOk(ctx: Context, k: nat, s: Snap, f: Flags, h: Past)
    requires LateOk(ctx, k, s, f, h)
    ensures LiveHasse(h.under.ext, h.under.live, h.under.lower) && k < |ctx.cols|
    ensures s == Drawn(ctx, k, h.under, h.done) && f.ca == |h.under.ext|
  {
    hide LiveHasse, Drawn, Settled, DroppedIn;
  }

  lemma JoinRow(ctx: Context, k: nat, t: Snap, done: set<nat>, c: nat)
    requires k < |ctx.cols| && c < |t.ext| && LiveHasse(t.ext, t.live, t.lower)
      && c !in Reached(ctx, k, t.ext, t.live, done)
    ensures var s := Drawn(ctx, k, t, done);
      c < |t.lower| == |t.ext| && |s.lower| == |s.ext| == |t.ext| + 1 && s.lower[c] == t.lower[c]
        && |t.ext| !in s.lower[c]
  {
    NewNotBelow(t, c);
    hide Reached, LiveHasse;
  }

  /** The upper neighbours that have been reached matter for the edges only. */
  lemma JoinRest(ctx: Context, k: nat, t: Snap, done: set<nat>, done': set<nat>)
    requires k < |ctx.cols|
    ensures Drawn(ctx, k, t, done') == Drawn(ctx, k, t, done).(lower := Drawn(ctx, k, t, done').lower)
  {
    hide Reached, MaxBelow;
  }

  lemma JoinRows(ctx: Context, k: nat, t: Snap, done: set<nat>, c: nat, lower: seq<set<nat>>)
    requires k < |ctx.cols| && c < |t.ext| == |t.lower| && c !in Reached(ctx, k, t.ext, t.live, done)
    requires Reached(ctx, k, t.ext, t.live, done + {c}) == Reached(ctx, k, t.ext, t.live, done) + {c}
    requires |t.ext| !in MaxBelow(t.ext, t.live, ctx.cols[k])
    requires var row := Drawn(ctx, k, t, done).lower; lower == row[c := row[c] + {|t.ext|} - row[|t.ext|]]
    ensures lower == Drawn(ctx, k, t, done + {c}).lower
  {
    hide Reached, MaxBelow;
    var goal := Drawn(ctx, k, t, done + {c}).lower;
    forall p | 0 <= p < |goal| ensures lower[p] == goal[p] {}
  }

  lemma FirstRows(ctx: Context, k: nat, s: Snap, t: Snap, done: set<nat>, c: nat, lower: seq<set<nat>>)
    requires k < |ctx.cols| && c < |s.ext| == |s.lower| && c < |s.rext| && Reached(ctx, k, s.ext, s.live, done) == {c}
    requires t.ext == s.ext && t.live == s.live && t.lower == s.lower && ctx.cols[k] <= s.ext[c]
    requires var row := OpenedRows(ctx, k, s, c); lower == row[c := row[c] + {|s.ext|} - row[|s.ext|]]
    ensures lower == Drawn(ctx, k, t, done).lower
  {
    NotUnderColumn(s.ext, s.live, ctx.cols[k], c);
    hide Reached, MaxBelow;
    var goal := Drawn(ctx, k, t, done).lower;
    forall p | 0 <= p < |goal| ensures lower[p] == goal[p] {}
  }

  lemma FirstReady(ctx: Context, k: nat, s: Snap, f: Flags, h: Past, c: nat, upper: seq<set<nat>>)
    requires StepOk(ctx, k, s, f, h) && Due(s, h, c) && Mirrored(s.lower, upper) && !f.caDefined
    ensures k < |ctx.cols| && c < |s.ext| && EarlyOk(ctx, k, s, f, h) && Navigable(s.ext, s.live, s.lower)
    ensures |s.rext| == |s.rint| == |s.lower| == |s.ext| && f.inSub <= s.live <= Range(|s.ext|)
    ensures s.rext[c] == Objs(ctx, k, s.ext[c]) && LiveHasse(s.ext, s.live, s.lower) && c in s.live
  {
    Phases(ctx, k, s, f, h);
    hide StepOk, LateOk, Navigable;
    DueEarly(ctx, k, s, f, h, c);
    assert c in s.live by { hide LiveHasse, Labels, Origin, Births, Paid, InOrder; }
    SelectionOk(ctx, k, s, f, h);
    hide EarlyOk, Due;
    HasseNavigable(s.ext, s.live, s.lower, upper);
  }

  lemma OpenedRow(ctx: Context, k: nat, s: Snap, c: nat)
    requires k < |ctx.cols| && c < |s.ext| == |s.rext| && LiveHasse(s.ext, s.live, s.lower)
    ensures var s' := Opened(ctx, k, s, c);
      s'.ext == s.ext + [ctx.cols[k]] && |s'.lower| == |s.ext| + 1 && |s.ext| !in s'.lower[c]
        && s'.lower == OpenedRows(ctx, k, s, c)
  {
    NewNotBelow(s, c);
    hide MaxBelow, LiveHasse;
  }

  /** After the edge to c, the step goes on in its second phase. */
  lemma FirstDone(ctx: Context, k: nat, s: Snap, f: Flags, h: Past, c: nat, lower: seq<set<nat>>,
                  upper: seq<set<nat>>, settled: set<nat>, gone: bool)
    requires ctx.Valid() && EarlyOk(ctx, k, s, f, h) && Due(s, h, c) && LiveHasse(s.ext, s.live, s.lower) && c in s.live
    requires k < |ctx.cols| && c < |s.ext| == |s.rint| == |s.rext| == |s.lower| && ctx.cols[k] < s.ext[c]
    requires var row := OpenedRows(ctx, k, s, c); lower == row[c := row[c] + {|s.ext|} - row[|s.ext|]]
    requires Mirrored(lower, upper)
      && forall p :: p in settled <==> p in f.doNotCheck || Reachability.Reach(upper, c, p)
    requires gone == (Moved(ctx, k, s.ext[c]) != {} && s.rint[c] == {} && Objs(ctx, k, s.ext[c]) - ctx.cols[k] == {})
    ensures var t := s.(rext := s.rext[c := Kept(ctx, k, s.ext[c])]);
      var s' := Drawn(ctx, k, t, h.done + {c});
      s' == Opened(ctx, k, s, c).(lower := lower) &&
      StepOk(ctx, k, s', Flags(f.inSub, f.nonIntro + (if gone then {c} else {}), settled, true, |s.ext|),
             h.(done := h.done + {c}, under := t))
  {
    var t := s.(rext := s.rext[c := Kept(ctx, k, s.ext[c])]);
    assert f.doNotCheck == {};
    hide EarlyOk, LateOk, Due, Context.Valid, LiveHasse, Mirrored, Reached, Kept, Objs, Moved, UpSet,
        Reachability.Reach;
    FirstOk(ctx, k, s, f, h, c);
    FirstRows(ctx, k, s, t, h.done + {c}, c, lower);
    SettledNow(ctx, k, t, h.done + {c}, upper, c, f.doNotCheck, settled);
    assert settled == UpSet(t, c);
  }

  lemma SettledNow(ctx: Context, k: nat, t: Snap, done: set<nat>, upper: seq<set<nat>>, c: nat, old_: set<nat>,
                   now: set<nat>)
    requires k < |ctx.cols| && LiveHasse(t.ext, t.live, t.lower) && Mirrored(Drawn(ctx, k, t, done).lower, upper)
    requires c in t.live && c < |t.ext| && ctx.cols[k] < t.ext[c]
    requires forall p :: p in now <==> p in old_ || Reachability.Reach(upper, c, p)
    ensures now == old_ + UpSet(t, c)
  {
    hide Drawn, Mirrored, LiveHasse, UpSet, Reachability.Reach;
    forall p: nat ensures p in now <==> p in old_ + UpSet(t, c) {
      AncestorsAre(ctx, k, t, done, upper, c, p);
    }
  }
}
