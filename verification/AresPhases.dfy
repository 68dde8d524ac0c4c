/** One step of Ares as a whole: what holds between two visits, and what each kind of visit
    makes of it. */
module AresPhases {
  import opened FiniteSets
  import opened FormalContext
  import opened LiveDiagram
  import opened AresTheory
  import opened AresStep
  import opened AresMoves
  import DynOrders

  /** The flags of a step: the concepts seen inside the column, those to be removed, those
      not to be looked at, and the concept of the column once there is one. */
  datatype Flags = Flags(inSub: set<nat>, nonIntro: set<nat>, doNotCheck: set<nat>, caDefined: bool, ca: nat)

  /** The visits so far: the concepts at the beginning, those visited, which concept was cut
      out of which, and the order without the concept of the column. */
  datatype Past = Past(s0: set<nat>, done: set<nat>, born: map<nat, nat>, under: Snap)

  ghost function DroppedIn(ctx: Context, k: nat, ext: seq<set<nat>>, done: set<nat>): set<nat>
    requires k < |ctx.cols|
  {
    set c | c in done && c < |ext| && Dropped(ctx, k, ext[c])
  }

  ghost predicate EarlyOk(ctx: Context, k: nat, s: Snap, f: Flags, h: Past) {
    && Before(ctx, k, s, h.s0, h.done, h.born)
    && f.inSub == Subs(ctx, k, s, h.s0, h.done, h.born)
    && f.nonIntro == DroppedIn(ctx, k, s.ext, h.done) && f.doNotCheck == {}
  }

  ghost predicate LateOk(ctx: Context, k: nat, s: Snap, f: Flags, h: Past) {
    && Waiting(ctx, k, h.under, h.s0, h.done, h.born)
    && s == Drawn(ctx, k, h.under, h.done) && f.ca == |h.under.ext|
    && f.nonIntro == DroppedIn(ctx, k, h.under.ext, h.done) && f.doNotCheck == Settled(ctx, k, h.under, h.done)
  }

  /** Before some concept around the column is met, the order is complete; from then on it
      is that order with the column drawn below the upper neighbours met so far. */
  ghost predicate StepOk(ctx: Context, k: nat, s: Snap, f: Flags, h: Past) {
    if f.caDefined then LateOk(ctx, k, s, f, h) else EarlyOk(ctx, k, s, f, h)
  }

  lemma Phases(ctx: Context, k: nat, s: Snap, f: Flags, h: Past)
    ensures StepOk(ctx, k, s, f, h) <==> if f.caDefined then LateOk(ctx, k, s, f, h) else EarlyOk(ctx, k, s, f, h)
  {
    hide EarlyOk, LateOk;
  }

  /** A concept to be visited, in the order of the sizes. */
  ghost predicate Due(s: Snap, h: Past, c: nat) {
    Next(s, h.s0, h.done, c)
  }

  lemma DueLate(ctx: Context, k: nat, s: Snap, f: Flags, h: Past, c: nat)
    requires LateOk(ctx, k, s, f, h) && Due(s, h, c)
    ensures k < |ctx.cols| && Next(h.under, h.s0, h.done, c) && c < |h.under.ext| < |s.ext|
      && s.ext[c] == h.under.ext[c]
  {
    assert h.under.ext <= s.ext && h.s0 <= Range(|h.under.ext|) && k < |ctx.cols|;
    hide Waiting, Drawn;
  }

  lemma DueEarly(ctx: Context, k: nat, s: Snap, f: Flags, h: Past, c: nat)
    requires EarlyOk(ctx, k, s, f, h) && Due(s, h, c)
    ensures k < |ctx.cols| && c < |s.ext| && |s.rext| == |s.rint| == |s.ext|
    ensures s.rext[c] == Objs(ctx, k, s.ext[c]) && s.rint[c] == Attrs(ctx, k, s.ext[c]) && Intro(ctx, k, s.ext[c])
  {
    hide Intro, LiveHasse, Births, Paid, InOrder;
  }

  lemma DueInRange(ctx: Context, k: nat, s: Snap, f: Flags, h: Past, c: nat)
    requires StepOk(ctx, k, s, f, h) && Due(s, h, c)
    ensures k < |ctx.cols| && c < |s.ext| && c !in f.nonIntro
  {
    if f.caDefined {
      DueLate(ctx, k, s, f, h, c);
    } else {
      DueEarly(ctx, k, s, f, h, c);
    }
    hide Before, Waiting, Drawn, Settled, Dropped;
  }

  /** Nothing to do for c: it is settled, or apart from the column without an object to lose. */
  ghost predicate Idle(ctx: Context, k: nat, s: Snap, f: Flags, c: nat)
    requires k < |ctx.cols| && c < |s.ext|
  {
    c in f.doNotCheck || (!(ctx.cols[k] <= s.ext[c]) && !NeedsCut(ctx, k, s.ext[c]))
  }

  lemma NotDropped(ctx: Context, k: nat, ext: seq<set<nat>>, done: set<nat>, c: nat)
    requires k < |ctx.cols| && c < |ext| && !Dropped(ctx, k, ext[c])
    ensures DroppedIn(ctx, k, ext, done + {c}) == DroppedIn(ctx, k, ext, done)
  {
    hide Dropped;
  }

  lemma LosesNothing(ctx: Context, k: nat, x: set<nat>)
    requires k < |ctx.cols| && !Loses(ctx, k, x)
    ensures !Dropped(ctx, k, x)
  {}

  lemma IdleLate(ctx: Context, k: nat, s: Snap, f: Flags, h: Past, c: nat)
    requires ctx.Valid() && LateOk(ctx, k, s, f, h) && Due(s, h, c)
    requires k < |ctx.cols| && c < |s.ext| && (c in f.doNotCheck || !(ctx.cols[k] <= s.ext[c]))
    ensures LateOk(ctx, k, s, f, h.(done := h.done + {c}))
  {
    DueLate(ctx, k, s, f, h, c);
    assert c in f.doNotCheck ==> Covered(ctx, k, h.under.ext, h.under.live, h.done, c);
    hide Waiting, Drawn, Settled, Covered, Next;
    SkipAfter(ctx, k, h.under, h.s0, h.done, h.born, c);
    SkippedKeeps(ctx, k, h.under, h.s0, h.done, h.born, c);
    LosesNothing(ctx, k, h.under.ext[c]);
    NotDropped(ctx, k, h.under.ext, h.done, c);
  }

  lemma IdleEarly(ctx: Context, k: nat, s: Snap, f: Flags, h: Past, c: nat)
    requires EarlyOk(ctx, k, s, f, h) && Due(s, h, c)
    requires k < |ctx.cols| && c < |s.ext| && !(ctx.cols[k] <= s.ext[c]) && !NeedsCut(ctx, k, s.ext[c])
    ensures EarlyOk(ctx, k, s, f.(inSub := if s.ext[c] < ctx.cols[k] then f.inSub + {c} else f.inSub),
                    h.(done := h.done + {c}))
  {
    SkipBefore(ctx, k, s, h.s0, h.done, h.born, c);
    assert !Dropped(ctx, k, s.ext[c]);
    NotDropped(ctx, k, s.ext, h.done, c);
    assert c in h.s0 + h.born.Keys && h.s0 + h.born.Keys <= Range(|s.ext|);
    hide Before, NeedsCut, Dropped, DroppedIn, Next;
  }

  /** Leaving c alone. */
  lemma IdleOk(ctx: Context, k: nat, s: Snap, f: Flags, h: Past, c: nat)
    requires ctx.Valid() && StepOk(ctx, k, s, f, h) && Due(s, h, c)
    requires k < |ctx.cols| && c < |s.ext| && Idle(ctx, k, s, f, c) && (c in f.doNotCheck || !(s.ext[c] < ctx.cols[k]))
    ensures StepOk(ctx, k, s, f, h.(done := h.done + {c}))
  {
    hide LateOk, Due, NeedsCut;
    if f.caDefined {
      IdleLate(ctx, k, s, f, h, c);
    } else {
      assert c !in f.doNotCheck;
      hide Before, DroppedIn, Subs;
      IdleEarly(ctx, k, s, f, h, c);
    }
  }

  /** Noting that c lies inside the column. */
  lemma InsideOk(ctx: Context, k: nat, s: Snap, f: Flags, h: Past, c: nat)
    requires ctx.Valid() && StepOk(ctx, k, s, f, h) && Due(s, h, c)
    requires k < |ctx.cols| && c < |s.ext| && s.ext[c] < ctx.cols[k]
    ensures StepOk(ctx, k, s, f.(inSub := f.inSub + {c}), h.(done := h.done + {c}))
  {
    assert !NeedsCut(ctx, k, s.ext[c]);
    hide Due, NeedsCut;
    if f.caDefined {
      IdleLate(ctx, k, s, f, h, c);
      hide Waiting, Drawn, Settled, DroppedIn;
    } else {
      hide LateOk, EarlyOk;
      IdleEarly(ctx, k, s, f, h, c);
    }
  }

  /** Once the column is drawn, no concept to be visited has it for its extent or needs a
      cut. */
  lemma NeverLate(ctx: Context, k: nat, s: Snap, f: Flags, h: Past, c: nat)
    requires LateOk(ctx, k, s, f, h) && Due(s, h, c)
    ensures k < |ctx.cols| && c < |s.ext| && s.ext[c] != ctx.cols[k] && !NeedsCut(ctx, k, s.ext[c])
  {
    DueLate(ctx, k, s, f, h, c);
    hide Drawn, Sets, Labels, InOrder, LiveHasse, NeedsCut;
  }

  lemma EqualIsEarly(ctx: Context, k: nat, s: Snap, f: Flags, h: Past, c: nat)
    requires StepOk(ctx, k, s, f, h) && Due(s, h, c)
    requires k < |ctx.cols| && c < |s.ext| && (s.ext[c] == ctx.cols[k] || NeedsCut(ctx, k, s.ext[c]))
    ensures !f.caDefined
  {
    hide LateOk, EarlyOk, Due, NeedsCut;
    if f.caDefined { NeverLate(ctx, k, s, f, h, c); }
  }

  lemma NothingLost(ctx: Context, k: nat, x: set<nat>)
    requires ctx.Valid() && k < |ctx.cols| && Intro(ctx, k, ctx.cols[k])
    ensures !Loses(ctx, k, x)
  {
    if Moved(ctx, k, x) != {} {
      MovedIsObject(ctx, k, x);
      var o :| o in Moved(ctx, k, x) && o < |ctx.rows| && ObjExt(ctx, k, o) == x && o in ctx.cols[k];
      HoldsExtent(ctx, k, ctx.cols[k], o);
    }
  }

  lemma NothingCut(ctx: Context, k: nat, x: set<nat>, y: set<nat>)
    requires ctx.Valid() && k < |ctx.cols| && Intro(ctx, k, ctx.cols[k])
    ensures !IsCut(ctx, k, x, y)
  {
    NothingLost(ctx, k, x);
    hide Intro;
  }

  lemma NothingBorn(ctx: Context, k: nat, s: Snap, s0: set<nat>, done: set<nat>, born: map<nat, nat>)
    requires ctx.Valid() && Sets(ctx, k, s, s0, done, born) && Intro(ctx, k, ctx.cols[k])
    ensures born.Keys == {}
  {
    assert s0 !! born.Keys && s0 + born.Keys <= Range(|s.ext|);
    hide Sets, Intro, IsCut;
    forall n: nat ensures n !in born {
      if n in born {
        AliveIs(ctx, k, s, s0, done, born, n);
        NothingCut(ctx, k, s.ext[born[n]], s.ext[n]);
      }
    }
  }

  /** The column is the extent of c: with the new label on c the step is over. */
  lemma EqualOk(ctx: Context, k: nat, s: Snap, f: Flags, h: Past, c: nat)
    requires ctx.Valid() && EarlyOk(ctx, k, s, f, h) && Due(s, h, c)
    requires k < |ctx.cols| && c < |s.ext| == |s.rint| && s.ext[c] == ctx.cols[k]
    ensures AresOk(ctx, k + 1, s.(rint := s.rint[c := s.rint[c] + {k}]))
  {
    DueEarly(ctx, k, s, f, h, c);
    NothingBorn(ctx, k, s, h.s0, h.done, h.born);
    assert s.live == h.s0;
    var s' := s.(rint := s.rint[c := s.rint[c] + {k}]);
    hide Intro;
    forall d | d in s'.live
      ensures d < |s.ext| && Intro(ctx, k + 1, s'.ext[d]) && s'.rext[d] == Objs(ctx, k + 1, s'.ext[d])
        && s'.rint[d] == Attrs(ctx, k + 1, s'.ext[d])
    {
      assert d < |s.ext| && Intro(ctx, k, s.ext[d]);
      LabelsNow(ctx, k, s, h.s0, h.done, h.born, c, d);
      KnownColumn(ctx, k, s.ext[d]);
    }
    forall x | Intro(ctx, k + 1, x) ensures HasExt(s'.ext, s'.live, x) {
      KnownColumn(ctx, k, x);
    }
  }

  lemma LabelsNow(ctx: Context, k: nat, s: Snap, s0: set<nat>, done: set<nat>, born: map<nat, nat>, c: nat, d: nat)
    requires ctx.Valid() && Sets(ctx, k, s, s0, done, born) && Labels(ctx, k, s, s0, done, born)
    requires c in s0 && d in s0 && LiveHasse(s.ext, s0, s.lower) && s.ext[c] == ctx.cols[k]
      && Intro(ctx, k, ctx.cols[k])
    ensures s.rext[d] == Objs(ctx, k, s.ext[d])
    ensures (if d == c then s.rint[c] + {k} else s.rint[d]) == Attrs(ctx, k + 1, s.ext[d])
  {
    NothingLost(ctx, k, s.ext[d]);
    AttrsStep(ctx, k, s.ext[d]);
    hide Intro, Loses, Objs;
  }

  // ---- cutting ----

  lemma DroppedIs(ctx: Context, k: nat, x: set<nat>)
    requires k < |ctx.cols| && !(x <= ctx.cols[k])
    ensures Dropped(ctx, k, x)
      <==> Moved(ctx, k, x) != {} && Attrs(ctx, k, x) == {} && Objs(ctx, k, x) - ctx.cols[k] == {}
  {
    hide Objs, Attrs, Moved;
    assert Objs(ctx, k, x) - ctx.cols[k] == {} <==> Objs(ctx, k, x) <= ctx.cols[k] by {
      if Objs(ctx, k, x) - ctx.cols[k] == {} {
        forall o | o in Objs(ctx, k, x) ensures o in ctx.cols[k] {
          assert o !in Objs(ctx, k, x) - ctx.cols[k];
        }
      }
    }
  }

  lemma DroppedMore(ctx: Context, k: nat, ext: seq<set<nat>>, ext': seq<set<nat>>, done: set<nat>, c: nat)
    requires k < |ctx.cols| && c < |ext| && ext <= ext' && done <= Range(|ext|)
    ensures DroppedIn(ctx, k, ext', done + {c}) == DroppedIn(ctx, k, ext,
                                                             done) + (if Dropped(ctx, k, ext[c]) then {c} else {})
  {
    hide Dropped;
    assert forall d | d in done :: ext'[d] == ext[d];
  }

  lemma CutSubs(ctx: Context, k: nat, s: Snap, s0: set<nat>, done: set<nat>, born: map<nat, nat>, c: nat)
    requires ctx.Valid() && Before(ctx, k, s, s0, done, born) && Next(s, s0, done, c) && NeedsCut(ctx, k, s.ext[c])
    ensures s0 + born[|s.ext| := c].Keys <= Range(|s.ext| + 1)
    ensures Subs(ctx, k, Cut(ctx, k, s, c), s0, done + {c}, born[|s.ext| := c]) == Subs(ctx, k, s, s0, done,
        born) + {|s.ext|}
  {
    hide Context.Valid, Labels, LiveHasse, Inserted, MaxBelow, ObjExt;
    var x := s.ext[c];
    CutInside(ctx, k, x);
    assert s0 + born.Keys <= Range(|s.ext|) && |s.rext| == |s.ext|;
    assert born[|s.ext| := c].Keys == born.Keys + {|s.ext|};
    assert !(x < ctx.cols[k]);
    hide Before, NeedsCut, Intro, Objs, Moved;
    SubsGrow(ctx, k, s, Cut(ctx, k, s, c), s0, done, born, c);
  }

  lemma CutInside(ctx: Context, k: nat, x: set<nat>)
    requires ctx.Valid() && k < |ctx.cols| && Intro(ctx, k, x) && NeedsCut(ctx, k, x)
    ensures x * ctx.cols[k] < ctx.cols[k] && !(x < ctx.cols[k])
  {
    assert IsCut(ctx, k, x, x * ctx.cols[k]);
    CutIsNew(ctx, k, x, x * ctx.cols[k], x);
  }

  lemma SubsGrow(ctx: Context, k: nat, s: Snap, s': Snap, s0: set<nat>, done: set<nat>, born: map<nat, nat>, c: nat)
    requires k < |ctx.cols| && s0 + born.Keys <= Range(|s.ext|) && c in s0 && !(s.ext[c] < ctx.cols[k])
    requires |s'.ext| == |s.ext| + 1 && s.ext <= s'.ext && s'.ext[|s.ext|] < ctx.cols[k]
    requires born[|s.ext| := c].Keys == born.Keys + {|s.ext|}
    ensures Subs(ctx, k, s', s0, done + {c}, born[|s.ext| := c]) == Subs(ctx, k, s, s0, done, born) + {|s.ext|}
  {}

  lemma CutOk(ctx: Context, k: nat, s: Snap, f: Flags, h: Past, c: nat)
    requires ctx.Valid() && EarlyOk(ctx, k, s, f, h) && Due(s, h, c)
    requires k < |ctx.cols| && c < |s.ext| == |s.rint| == |s.rext| && NeedsCut(ctx, k, s.ext[c])
    ensures var gone := s.rint[c] == {} && Objs(ctx, k, s.ext[c]) - ctx.cols[k] == {};
      EarlyOk(ctx, k, Cut(ctx, k, s, c),
              f.(inSub := f.inSub + {|s.ext|}, nonIntro := f.nonIntro + (if gone then {c} else {})),
              h.(done := h.done + {c}, born := h.born[|s.ext| := c]))
  {
    DueEarly(ctx, k, s, f, h, c);
    CutSubs(ctx, k, s, h.s0, h.done, h.born, c);
    DroppedMore(ctx, k, s.ext, Cut(ctx, k, s, c).ext, h.done, c);
    DroppedIs(ctx, k, s.ext[c]);
    hide Before, Dropped, DroppedIn, Subs, NeedsCut, Cut;
    CutBefore(ctx, k, s, h.s0, h.done, h.born, c);
  }

  // ---- around the column ----

  lemma FirstSettled(ctx: Context, k: nat, t: Snap, done: set<nat>, c: nat)
    requires k < |ctx.cols| && c < |t.ext| && t.live <= Range(|t.ext|) && Reached(ctx, k, t.ext, t.live, done) == {c}
    ensures Settled(ctx, k, t, done) == UpSet(t, c)
  {
    hide Reached;
  }

  lemma FirstOk(ctx: Context, k: nat, s: Snap, f: Flags, h: Past, c: nat)
    requires ctx.Valid() && EarlyOk(ctx, k, s, f, h) && Due(s, h, c)
    requires k < |ctx.cols| && c < |s.ext| == |s.rint| == |s.rext| && ctx.cols[k] < s.ext[c]
    ensures var t := s.(rext := s.rext[c := Kept(ctx, k, s.ext[c])]);
      var gone := Moved(ctx, k, s.ext[c]) != {} && s.rint[c] == {} && Objs(ctx, k, s.ext[c]) - ctx.cols[k] == {};
      Reached(ctx, k, t.ext, t.live, h.done + {c}) == {c} &&
      LateOk(ctx, k, Drawn(ctx, k, t, h.done + {c}),
             f.(nonIntro := f.nonIntro + (if gone then {c} else {}), doNotCheck := UpSet(t, c), caDefined := true,
                ca := |s.ext|),
             h.(done := h.done + {c}, under := t))
  {
    DueEarly(ctx, k, s, f, h, c);
    assert s.live <= Range(|s.ext|) && h.done <= Range(|s.ext|);
    DroppedMore(ctx, k, s.ext, s.ext, h.done, c);
    DroppedIs(ctx, k, s.ext[c]);
    var t := s.(rext := s.rext[c := Kept(ctx, k, s.ext[c])]);
    hide Before, Dropped, DroppedIn, Kept, Waiting, Reached, Settled, UpSet, Subs, Drawn;
    FirstWaits(ctx, k, s, h.s0, h.done, h.born, c);
    FirstSettled(ctx, k, t, h.done + {c}, c);
  }

  lemma JoinOk(ctx: Context, k: nat, s: Snap, f: Flags, h: Past, c: nat)
    requires ctx.Valid() && LateOk(ctx, k, s, f, h) && Due(s, h, c)
    requires k < |ctx.cols| && c < |s.ext| && ctx.cols[k] <= s.ext[c] && c !in f.doNotCheck
    ensures c < |h.under.ext| && c in h.under.live && ctx.cols[k] < h.under.ext[c]
    ensures Reached(ctx, k, h.under.ext, h.under.live, h.done + {c}) == Reached(ctx, k, h.under.ext, h.under.live,
        h.done) + {c}
    ensures c !in Reached(ctx, k, h.under.ext, h.under.live, h.done)
    ensures LateOk(ctx, k, Drawn(ctx, k, h.under, h.done + {c}), f.(doNotCheck := f.doNotCheck + UpSet(h.under, c)),
                   h.(done := h.done + {c}))
  {
    DueLate(ctx, k, s, f, h, c);
    assert c in h.under.live && !Covered(ctx, k, h.under.ext, h.under.live, h.done, c);
    hide Waiting, Drawn, Settled, Covered, Next, Reached, UpSet, Dropped;
    JoinAfter(ctx, k, h.under, h.s0, h.done, h.born, c);
    JoinIsNeighbour(ctx, k, h.under, h.s0, h.done, h.born, c);
    JoinLosesNothing(ctx, k, h.under, h.s0, h.done, h.born, c);
    LosesNothing(ctx, k, h.under.ext[c]);
    NotDropped(ctx, k, h.under.ext, h.done, c);
  }

  // ---- after the visits ----

  ghost predicate Finished(ctx: Context, k: nat, s: Snap, nonIntro: set<nat>) {
    && Mid(ctx, k, s) && !Intro(ctx, k, ctx.cols[k])
    && (forall c | c in s.live :: c < |s.ext| && (Dropped(ctx, k, s.ext[c]) ==> c in nonIntro))
    && forall c | c in nonIntro :: c < |s.ext| && Dropped(ctx, k, s.ext[c])
  }

  lemma DroppedAreOld(ctx: Context, k: nat, t: Snap, s0: set<nat>, born: map<nat, nat>, done: set<nat>)
    requires ctx.Valid() && Sets(ctx, k, t, s0, s0, born) && t.live == s0 + born.Keys
    ensures var s := Drawn(ctx, k, t, done);
      (forall c | c in s.live :: c < |s.ext| && (Dropped(ctx, k, s.ext[c]) ==> c in DroppedIn(ctx, k, t.ext, s0)))
      && forall c | c in DroppedIn(ctx, k, t.ext, s0) :: c < |s.ext| && Dropped(ctx, k, s.ext[c])
  {
    var s := Drawn(ctx, k, t, done);
    assert t.live <= Range(|t.ext|);
    forall c | c in s.live ensures c < |s.ext| && (Dropped(ctx, k, s.ext[c]) ==> c in DroppedIn(ctx, k, t.ext, s0)) {
      if c == |t.ext| {
        NewIsNotDropped(ctx, k, s.ext[c]);
      } else if c !in s0 {
        AliveIs(ctx, k, t, s0, s0, born, c);
        assert CutOut(ctx, k, s.ext[c]) by { hide IsCut; }
        NewIsNotDropped(ctx, k, s.ext[c]);
      }
    }
    hide Dropped;
  }

  lemma FinishAny(ctx: Context, k: nat, t: Snap, s0: set<nat>, born: map<nat, nat>)
    requires ctx.Valid() && Sets(ctx, k, t, s0, s0, born) && Labels(ctx, k, t, s0, s0, born)
    requires t.live == s0 + born.Keys && LiveHasse(t.ext, t.live, t.lower)
    requires forall c | c in s0 && c < |t.ext| :: t.ext[c] != ctx.cols[k]
    ensures Finished(ctx, k, Drawn(ctx, k, t, s0), DroppedIn(ctx, k, t.ext, s0))
  {
    hide Labels, LiveHasse, Drawn, Mid, Dropped, Intro, DroppedIn;
    DrawnIsMid(ctx, k, t, s0, born);
    NotIntroduced(ctx, k, t, s0, s0, born);
    DroppedAreOld(ctx, k, t, s0, born, s0);
  }

  /** All concepts visited, the column drawn below all its upper neighbours. */
  lemma FinishLate(ctx: Context, k: nat, s: Snap, f: Flags, h: Past)
    requires ctx.Valid() && LateOk(ctx, k, s, f, h) && h.done == h.s0
    ensures Finished(ctx, k, s, f.nonIntro)
  {
    hide Sets, Labels, LiveHasse, Drawn, Finished;
    FinishAny(ctx, k, h.under, h.s0, h.born);
  }

  lemma NoneReached(ctx: Context, k: nat, ext: seq<set<nat>>, live: set<nat>, done: set<nat>)
    requires k < |ctx.cols| && forall c | c in done && c < |ext| :: !(ctx.cols[k] <= ext[c])
    ensures Reached(ctx, k, ext, live, done) == {}
  {
    forall u ensures u !in Reached(ctx, k, ext, live, done) {
      if u in done && u < |ext| { NotAround(ext, live, ctx.cols[k], u); }
    }
  }

  /** All concepts visited and none around the column: it is drawn at the top, without
      objects of its own. */
  lemma FinishEarly(ctx: Context, k: nat, s: Snap, f: Flags, h: Past)
    requires ctx.Valid() && EarlyOk(ctx, k, s, f, h) && h.done == h.s0
    ensures k < |ctx.cols| && Objs(ctx, k + 1, ctx.cols[k]) == {} && Reached(ctx, k, s.ext, s.live, h.s0) == {}
    ensures Finished(ctx, k, Drawn(ctx, k, s, h.s0), f.nonIntro)
  {
    assert forall c | c in h.s0 :: c < |s.ext| && !(ctx.cols[k] <= s.ext[c]) && s.ext[c] != ctx.cols[k];
    hide Sets, Labels, LiveHasse, Drawn, Finished, Subs, DroppedIn, Objs, Reached;
    NoObjectsInside(ctx, k, s, h.s0, h.done, h.born);
    NoneReached(ctx, k, s.ext, s.live, h.s0);
    FinishAny(ctx, k, s, h.s0, h.born);
  }

  /** Disjoint sets, neither empty: nothing to do. */
  lemma DisjointIsIdle(ctx: Context, k: nat, s: Snap, f: Flags, c: nat)
    requires ctx.Valid() && k < |ctx.cols| && c < |s.ext| && s.ext[c] != {} && ctx.cols[k] != {}
      && s.ext[c] * ctx.cols[k] == {}
    ensures Idle(ctx, k, s, f, c) && !(s.ext[c] < ctx.cols[k])
  {
    var x, col := s.ext[c], ctx.cols[k];
    DisjointApart(x, col);
    forall o | o in Objs(ctx, k, x) ensures o in x {
      OwnExtent(ctx, k, o);
    }
    hide Objs;
    assert Moved(ctx, k, x) <= x * col;
  }

  lemma DisjointApart(x: set<nat>, y: set<nat>)
    requires x != {} && y != {} && x * y == {}
    ensures !(x <= y) && !(y <= x)
  {
    var o :| o in x;
    var p :| p in y;
    assert o !in x * y && p !in x * y;
  }

  lemma InterCard(x: set<nat>, y: set<nat>)
    ensures |x * y| == |x| <==> x <= y
  {
    SubsetCard(x * y, x);
    if x <= y { assert x * y == x; }
  }

  // ---- the beginning of a step ----

  /** A step begins with nothing visited. */
  lemma StartOk(ctx: Context, k: nat, s: Snap, f: Flags, h: Past)
    requires k < |ctx.cols| && AresOk(ctx, k, s) && h.s0 == s.live && h.done == {} && h.born == map[]
    requires f.inSub == {} && f.nonIntro == {} && f.doNotCheck == {} && !f.caDefined
    ensures StepOk(ctx, k, s, f, h)
  {
    assert s.live <= Range(|s.ext|) && h.s0 + h.born.Keys == s.live;
    hide Intro, LiveHasse, Objs, Attrs, Moved;
    assert Origin(ctx, k, s.ext, h.s0);
  }

  // ---- what the searches find ----

  /** The reduced extent of a concept that does not contain the column, in either phase. */
  lemma ReducedInStep(ctx: Context, k: nat, s: Snap, f: Flags, h: Past, c: nat, red: set<nat>)
    requires ctx.Valid() && StepOk(ctx, k, s, f, h) && Due(s, h, c)
    requires k < |ctx.cols| && c < |s.ext| == |s.lower| && !(ctx.cols[k] <= s.ext[c])
      && IsReduced(s.ext, s.lower[c], s.ext[c], red)
    ensures red == Objs(ctx, k, s.ext[c])
  {
    if f.caDefined {
      ReducedLate(ctx, k, s, f, h, c, red);
    } else {
      hide IsReduced, Subs, DroppedIn, LiveHasse, Sets, Labels, InOrder;
      ReducedIsOwn(ctx, k, s, h.s0, h.done, h.born, c, red);
    }
  }

  lemma ReducedLate(ctx: Context, k: nat, s: Snap, f: Flags, h: Past, c: nat, red: set<nat>)
    requires ctx.Valid() && LateOk(ctx, k, s, f, h) && Due(s, h, c)
    requires k < |ctx.cols| && c < |s.ext| == |s.lower| && !(ctx.cols[k] <= s.ext[c])
      && IsReduced(s.ext, s.lower[c], s.ext[c], red)
    ensures red == Objs(ctx, k, s.ext[c])
  {
    var t := h.under;
    DueLate(ctx, k, s, f, h, c);
    NotAround(t.ext, t.live, ctx.cols[k], c);
    assert s.lower[c] == t.lower[c];
    CoversInRange(t.ext, t.live, t.lower, c);
    ReducedLater(t.ext, s.ext, t.lower[c], t.ext[c], red);
    hide IsReduced, Drawn, Settled, DroppedIn, LiveHasse, Sets, Labels, InOrder, Around;
    ReducedIsOwn(ctx, k, t, h.s0, h.done, h.born, c, red);
  }

  lemma CoversInRange(ext: seq<set<nat>>, live: set<nat>, lower: seq<set<nat>>, c: nat)
    requires LiveHasse(ext, live, lower) && c < |ext|
    ensures |lower| == |ext| && forall d | d in lower[c] :: d < |ext|
  {}

  /** What the search below c has to start from. */
  lemma SelectionOk(ctx: Context, k: nat, s: Snap, f: Flags, h: Past)
    requires EarlyOk(ctx, k, s, f, h)
    ensures k < |ctx.cols| && |s.rext| == |s.rint| == |s.lower| == |s.ext| && s.live <= Range(|s.ext|)
      && LiveHasse(s.ext, s.live, s.lower)
    ensures f.inSub <= s.live && forall y | y in f.inSub :: s.ext[y] < ctx.cols[k]
  {}

  /** The largest concepts seen inside the column and below c. */
  ghost predicate TopmostBelow(ext: seq<set<nat>>, sel: set<nat>, c: nat, lo: set<nat>) {
    c < |ext| && forall v ::
      v in lo <==> v in sel && v < |ext| && ext[v] < ext[c] && DynOrders.NoneAbove(ext,
          DynOrders.SelectedBelow(ext, sel, c), v)
  }

  lemma TopmostIsLower(ctx: Context, k: nat, s: Snap, f: Flags, h: Past, c: nat, lo: set<nat>)
    requires ctx.Valid() && EarlyOk(ctx, k, s, f, h) && Due(s, h, c)
    requires k < |ctx.cols| && c < |s.ext| && NeedsCut(ctx, k, s.ext[c]) && TopmostBelow(s.ext, f.inSub, c, lo)
    ensures lo == MaxBelow(s.ext, s.live, s.ext[c] * ctx.cols[k])
  {
    assert s.live <= Range(|s.ext|);
    hide Before, NeedsCut, MaxBelow, Subs, DroppedIn;
    forall v: nat ensures v in lo <==> v in MaxBelow(s.ext, s.live, s.ext[c] * ctx.cols[k]) {
      CutLower(ctx, k, s, h.s0, h.done, h.born, c, v);
    }
  }

  /** A set added at the end changes nothing in the search. */
  lemma TopmostKept(ext: seq<set<nat>>, e: set<nat>, sel: set<nat>, c: nat, lo: set<nat>)
    requires c < |ext| && sel <= Range(|ext|) && TopmostBelow(ext + [e], sel, c, lo)
    ensures TopmostBelow(ext, sel, c, lo)
  {
    var ext' := ext + [e];
    assert DynOrders.SelectedBelow(ext', sel, c) == DynOrders.SelectedBelow(ext, sel, c);
    forall v | v in sel ensures DynOrders.NoneAbove(ext', DynOrders.SelectedBelow(ext', sel, c), v)
      <==> DynOrders.NoneAbove(ext, DynOrders.SelectedBelow(ext, sel, c), v) {
      NoneAboveKept(ext, e, DynOrders.SelectedBelow(ext, sel, c), v);
    }
  }

  lemma NoneAboveKept(ext: seq<set<nat>>, e: set<nat>, sel: set<nat>, v: nat)
    requires v < |ext| && sel <= Range(|ext|)
    ensures DynOrders.NoneAbove(ext + [e], sel, v) <==> DynOrders.NoneAbove(ext, sel, v)
  {
    var ext' := ext + [e];
    if DynOrders.BelowSome(ext, sel, v) {
      var t :| t in sel && t < |ext| && ext[v] < ext[t];
      assert ext'[v] < ext'[t];
    }
  }

  /** The largest concepts seen inside the column, when all of those have been seen. */
  lemma MaximalIsLower(ctx: Context, k: nat, s: Snap, f: Flags, h: Past, lo: set<nat>)
    requires EarlyOk(ctx, k, s, f, h) && k < |ctx.cols|
    requires forall d | d in h.s0 && d < |s.ext| && s.ext[d] < ctx.cols[k] :: d in h.done
    requires forall v :: v in lo <==> v in f.inSub && DynOrders.NoneAbove(s.ext, f.inSub, v)
    ensures lo == MaxBelow(s.ext, s.live, ctx.cols[k])
  {
    assert s.live <= Range(|s.ext|) && s.live == h.s0 + h.born.Keys && Sets(ctx, k, s, h.s0, h.done, h.born);
    hide Before, MaxBelow, Subs, DroppedIn, Sets;
    forall v: nat ensures v in lo <==> v in MaxBelow(s.ext, s.live, ctx.cols[k]) {
      ColumnLower(ctx, k, s, h.s0, h.done, h.born, v);
    }
  }

  /** When c contains the column, all concepts inside it have been visited. */
  lemma InsideSeen(s: Snap, h: Past, c: nat, col: set<nat>)
    requires Due(s, h, c) && c < |s.ext| && col <= s.ext[c]
    ensures forall d | d in h.s0 && d < |s.ext| && s.ext[d] < col :: d in h.done
  {
    forall d | d in h.s0 && d < |s.ext| && s.ext[d] < col ensures d in h.done {
      SubsetCard(s.ext[d], col);
      SubsetCard(col, s.ext[c]);
    }
  }

  /** The reduced extent of the column drawn under c, and its cuts are all made. */
  lemma ReducedAtFirst(ctx: Context, k: nat, s: Snap, f: Flags, h: Past, c: nat, red: set<nat>)
    requires ctx.Valid() && EarlyOk(ctx, k, s, f, h) && Due(s, h, c)
    requires k < |ctx.cols| && c < |s.ext| && ctx.cols[k] < s.ext[c]
    requires IsReduced(s.ext, MaxBelow(s.ext, s.live, ctx.cols[k]), ctx.cols[k], red)
    ensures red == Objs(ctx, k + 1, ctx.cols[k])
  {
    forall d | d in h.s0 && d < |s.ext|
      ensures s.ext[d] != ctx.cols[k] && (NeedsCut(ctx, k, s.ext[d]) ==> d in h.done) {
      ColumnIsNew(ctx, k, s, h.s0, h.done, h.born, c, d);
      if NeedsCut(ctx, k, s.ext[d]) { CutsAreDone(ctx, k, s, h.s0, h.done, h.born, c, d); }
    }
    hide IsReduced, NeedsCut, MaxBelow, Sets, Labels, LiveHasse, InOrder;
    ReducedIsColumn(ctx, k, s, h.s0, h.done, h.born, red);
  }

  lemma ReducedEarly(ctx: Context, k: nat, s: Snap, f: Flags, h: Past, c: nat, red: set<nat>)
    requires ctx.Valid() && EarlyOk(ctx, k, s, f, h) && Due(s, h, c)
    requires c < |s.ext| == |s.lower| && IsReduced(s.ext, s.lower[c], s.ext[c], red)
    ensures red == Objs(ctx, k, s.ext[c])
  {
    hide IsReduced, Subs, DroppedIn, LiveHasse, Sets, Labels, InOrder;
    ReducedIsOwn(ctx, k, s, h.s0, h.done, h.born, c, red);
  }
}
