/** The states inside one step of Ares: before and after the concept of the new attribute is
    drawn. */
module AresStep {
  import opened FiniteSets
  import opened FormalContext
  import opened LiveDiagram
  import opened AresTheory
  import DynOrders

  /** The parts of the concept order that the reasoning is about. */
  datatype Snap = Snap(ext: seq<set<nat>>, live: set<nat>, lower: seq<set<nat>>, rext: seq<set<nat>>,
                       rint: seq<set<nat>>)

  ghost predicate HasExt(ext: seq<set<nat>>, live: set<nat>, x: set<nat>) {
    exists c :: c in live && c < |ext| && ext[c] == x
  }

  /** Between steps: the living concepts are those that introduce something among the first
      k attributes, with their labels, and the edges are the covers. */
  ghost predicate AresOk(ctx: Context, k: nat, s: Snap) {
    && |s.rext| == |s.rint| == |s.ext| && LiveHasse(s.ext, s.live, s.lower)
    && (forall c | c in s.live ::
      Intro(ctx, k, s.ext[c]) && s.rext[c] == Objs(ctx, k, s.ext[c]) && s.rint[c] == Attrs(ctx, k, s.ext[c]))
    && forall x | Intro(ctx, k, x) :: HasExt(s.ext, s.live, x)
  }

  /** x loses objects to what attribute k cuts out of it. */
  ghost predicate Loses(ctx: Context, k: nat, x: set<nat>)
    requires k < |ctx.cols|
  {
    !(x <= ctx.cols[k]) && Moved(ctx, k, x) != {}
  }

  ghost predicate NeedsCut(ctx: Context, k: nat, x: set<nat>)
    requires k < |ctx.cols|
  {
    Apart(x, ctx.cols[k]) && Moved(ctx, k, x) != {}
  }

  ghost predicate Shape(s: Snap, s0: set<nat>, done: set<nat>, born: map<nat, nat>) {
    && |s.rext| == |s.rint| == |s.ext|
    && done <= s0 <= Range(|s.ext|) && born.Keys <= Range(|s.ext|) && s0 !! born.Keys
    && forall n | n in born :: born[n] in done
  }

  /** The concepts s0 are those that introduce something among the first k attributes. */
  ghost predicate Origin(ctx: Context, k: nat, ext: seq<set<nat>>, s0: set<nat>) {
    && (forall c | c in s0 && c < |ext| :: Intro(ctx, k, ext[c]))
    && (forall x | Intro(ctx, k, x) :: HasExt(ext, s0, x))
  }

  ghost predicate Births(ctx: Context, k: nat, ext: seq<set<nat>>, born: map<nat, nat>)
    requires k < |ctx.cols|
  {
    forall n | n in born && n < |ext| && born[n] < |ext| :: IsCut(ctx, k, ext[born[n]], ext[n])
  }

  ghost predicate Paid(ctx: Context, k: nat, ext: seq<set<nat>>, done: set<nat>, born: map<nat, nat>)
    requires k < |ctx.cols|
  {
    forall c | c in done && c < |ext| && NeedsCut(ctx, k, ext[c]) :: c in born.Values
  }

  /** The concepts s0 of the beginning, of which `done` have been visited, and the concepts
      born since, each cut out of the one `born` tells. */
  ghost predicate Sets(ctx: Context, k: nat, s: Snap, s0: set<nat>, done: set<nat>, born: map<nat, nat>) {
    k < |ctx.cols| && Shape(s, s0, done, born) && Origin(ctx, k, s.ext, s0) && Births(ctx, k, s.ext, born)
      && Paid(ctx, k, s.ext, done, born)
  }

  ghost predicate Labels(ctx: Context, k: nat, s: Snap, s0: set<nat>, done: set<nat>, born: map<nat, nat>)
    requires Sets(ctx, k, s, s0, done, born)
  {
    && (forall c | c in s0 ::
          && s.rext[c] == (if c in done && Loses(ctx, k, s.ext[c]) then Objs(ctx, k,
              s.ext[c]) - ctx.cols[k] else Objs(ctx, k, s.ext[c]))
          && s.rint[c] == Attrs(ctx, k, s.ext[c]))
    && forall n | n in born :: s.rext[n] == Moved(ctx, k, s.ext[born[n]]) && s.rint[n] == {}
  }

  /** Smaller extents are visited first. */
  ghost predicate InOrder(s: Snap, s0: set<nat>, done: set<nat>)
    requires done <= s0 <= Range(|s.ext|)
  {
    forall c, d | c in done && d in s0 && |s.ext[d]| < |s.ext[c]| :: d in done
  }

  /** As long as no visited concept contains the column: the diagram is complete at every
      moment. */
  ghost predicate Before(ctx: Context, k: nat, s: Snap, s0: set<nat>, done: set<nat>, born: map<nat, nat>) {
    && Sets(ctx, k, s, s0, done, born) && Labels(ctx, k, s, s0, done, born) && InOrder(s, s0, done)
    && s.live == s0 + born.Keys && LiveHasse(s.ext, s.live, s.lower)
    && forall c | c in done :: !(ctx.cols[k] <= s.ext[c])
  }

  /** It is c's turn. */
  ghost predicate Next(s: Snap, s0: set<nat>, done: set<nat>, c: nat) {
    && c in s0 && c !in done && s0 <= Range(|s.ext|)
    && (forall d | d in s0 && |s.ext[d]| < |s.ext[c]| :: d in done)
    && forall d | d in done && d in s0 :: |s.ext[d]| <= |s.ext[c]|
  }

  /** A concept that neither contains the column nor loses anything to it is left alone. */
  lemma SkipBefore(ctx: Context, k: nat, s: Snap, s0: set<nat>, done: set<nat>, born: map<nat, nat>, c: nat)
    requires Before(ctx, k, s, s0, done, born) && Next(s, s0, done, c)
    requires !(ctx.cols[k] <= s.ext[c]) && !NeedsCut(ctx, k, s.ext[c])
    ensures Before(ctx, k, s, s0, done + {c}, born)
  {
    hide Intro, IsCut, Objs, Attrs, LiveHasse, Moved;
  }

  // ---- cutting ----

  /** The state after the part of c in the column has become a concept of its own. */
  ghost function Cut(ctx: Context, k: nat, s: Snap, c: nat): Snap
    requires k < |ctx.cols| && c < |s.ext| && |s.rext| == |s.ext|
  {
    var x := s.ext[c];
    var e := x * ctx.cols[k];
    Snap(s.ext + [e], s.live + {|s.ext|}, Inserted(s.lower, MaxBelow(s.ext, s.live, e), {c}),
         s.rext[c := Objs(ctx, k, x) - ctx.cols[k]] + [Moved(ctx, k, x)], s.rint + [{}])
  }

  /** Where a living concept comes from. */
  lemma AliveIs(ctx: Context, k: nat, s: Snap, s0: set<nat>, done: set<nat>, born: map<nat, nat>, y: nat)
    requires Sets(ctx, k, s, s0, done, born) && y in s0 + born.Keys
    ensures y < |s.ext|
    ensures y in s0 ==> Intro(ctx, k, s.ext[y])
    ensures y !in s0 ==> y in born && born[y] in done && born[y] in s0 && born[y] < |s.ext| && IsCut(ctx, k,
        s.ext[born[y]], s.ext[y])
  {}

  /** What is at least as large as the new cut contains c. */
  lemma AboveCut(ctx: Context, k: nat, s: Snap, s0: set<nat>, done: set<nat>, born: map<nat, nat>, c: nat, y: nat)
    requires ctx.Valid() && Before(ctx, k, s, s0, done, born) && Next(s, s0, done, c) && NeedsCut(ctx, k, s.ext[c])
    requires y in s.live && s.ext[c] * ctx.cols[k] <= s.ext[y]
    ensures y < |s.ext| && s.ext[c] <= s.ext[y] && y in s0
  {
    var x := s.ext[c];
    var e := x * ctx.cols[k];
    AliveIs(ctx, k, s, s0, done, born, y);
    AliveIs(ctx, k, s, s0, done, born, c);
    assert IsCut(ctx, k, x, e);
    if y in s0 {
      CutIsNew(ctx, k, x, e, s.ext[y]);
    } else {
      var z := born[y];
      CutsOrdered(ctx, k, x, e, s.ext[z], s.ext[y]);
      SubsetCard(x, s.ext[z]);
      hide IsCut, Intro, Sets, Labels, LiveHasse;
      SameConcept(s, c, z);
    }
  }

  lemma SameConcept(s: Snap, c: nat, d: nat)
    requires LiveHasse(s.ext, s.live, s.lower) && c in s.live && d in s.live && s.ext[c] == s.ext[d]
    ensures c == d
  {}

  /** c is the only upper neighbour of the new cut, and the cut is new. */
  lemma CutNeighbours(ctx: Context, k: nat, s: Snap, s0: set<nat>, done: set<nat>, born: map<nat, nat>, c: nat)
    requires ctx.Valid() && Before(ctx, k, s, s0, done, born) && Next(s, s0, done, c) && NeedsCut(ctx, k, s.ext[c])
    ensures c < |s.ext| && MinAbove(s.ext, s.live, s.ext[c] * ctx.cols[k]) == {c}
    ensures forall y | y in s.live :: s.ext[y] != s.ext[c] * ctx.cols[k]
  {
    var x := s.ext[c];
    var e := x * ctx.cols[k];
    AliveIs(ctx, k, s, s0, done, born, c);
    CutIsNew(ctx, k, x, e, x);
    forall y | y in s.live && e <= s.ext[y] ensures x <= s.ext[y] && s.ext[y] != e && (y == c || x < s.ext[y]) {
      AboveCut(ctx, k, s, s0, done, born, c, y);
      hide Sets, Labels, Next;
      if s.ext[y] == x { SameConcept(s, c, y); }
    }
    hide Before, Next, NeedsCut;
    OnlyNeighbour(s.ext, s.live, e, c);
  }

  lemma OnlyNeighbour(ext: seq<set<nat>>, live: set<nat>, e: set<nat>, c: nat)
    requires c in live && live <= Range(|ext|) && e < ext[c]
    requires forall y | y in live && e <= ext[y] :: y == c || ext[c] < ext[y]
    ensures MinAbove(ext, live, e) == {c}
  {
    forall y | y in live ensures IsMinAbove(ext, live, e, y) <==> y == c {
      if y == c {
        forall k | k in live && k < |ext| ensures !(e < ext[k] < ext[c]) {
          if e < ext[k] && k != c { assert ext[c] < ext[k]; }
        }
      } else if e < ext[y] {
        assert ext[c] < ext[y];
      }
    }
  }

  lemma CutShape(ctx: Context, k: nat, s: Snap, s0: set<nat>, done: set<nat>, born: map<nat, nat>, c: nat)
    requires k < |ctx.cols| && Shape(s, s0, done, born) && Next(s, s0, done, c)
    ensures Shape(Cut(ctx, k, s, c), s0, done + {c}, born[|s.ext| := c])
  {
    assert born[|s.ext| := c].Keys == born.Keys + {|s.ext|} && |s.ext| !in s0;
  }

  lemma OriginKept(ctx: Context, k: nat, ext: seq<set<nat>>, ext': seq<set<nat>>, s0: set<nat>)
    requires Origin(ctx, k, ext, s0) && ext <= ext' && s0 <= Range(|ext|)
    ensures Origin(ctx, k, ext', s0)
  {
    hide Intro;
    forall x | Intro(ctx, k, x) ensures HasExt(ext', s0, x) {
      var d :| d in s0 && d < |ext| && ext[d] == x;
      assert ext'[d] == x;
    }
    assert forall d | d in s0 :: ext'[d] == ext[d];
  }

  lemma CutBirths(ctx: Context, k: nat, ext: seq<set<nat>>, born: map<nat, nat>, c: nat)
    requires k < |ctx.cols| && Births(ctx, k, ext, born) && c < |ext| && NeedsCut(ctx, k, ext[c])
      && Intro(ctx, k, ext[c])
    requires born.Keys <= Range(|ext|) && forall n | n in born :: born[n] < |ext|
    ensures Births(ctx, k, ext + [ext[c] * ctx.cols[k]], born[|ext| := c])
  {
    var ext', born' := ext + [ext[c] * ctx.cols[k]], born[|ext| := c];
    assert IsCut(ctx, k, ext[c], ext[c] * ctx.cols[k]);
    hide IsCut;
    forall n | n in born' && n < |ext'| && born'[n] < |ext'| ensures IsCut(ctx, k, ext'[born'[n]], ext'[n]) {
      if n != |ext| { assert n in born && n < |ext| && ext'[n] == ext[n] && ext'[born[n]] == ext[born[n]]; }
    }
  }

  lemma CutPaid(ctx: Context, k: nat, ext: seq<set<nat>>, ext': seq<set<nat>>, done: set<nat>, born: map<nat, nat>,
                c: nat)
    requires k < |ctx.cols| && Paid(ctx, k, ext, done, born) && ext <= ext' && done <= Range(|ext|)
      && born.Keys <= Range(|ext|)
    ensures Paid(ctx, k, ext', done + {c}, born[|ext| := c])
  {
    hide NeedsCut;
    var born' := born[|ext| := c];
    forall d | d in done + {c} && d < |ext'| && NeedsCut(ctx, k, ext'[d]) ensures d in born'.Values {
      if d in done {
        assert ext'[d] == ext[d];
        var n :| n in born && born[n] == d;
        assert born'[n] == d;
      } else {
        assert born'[|ext|] == c;
      }
    }
  }

  lemma CutSetsOnly(ctx: Context, k: nat, s: Snap, s0: set<nat>, done: set<nat>, born: map<nat, nat>, c: nat)
    requires Sets(ctx, k, s, s0, done, born) && Next(s, s0, done, c) && NeedsCut(ctx, k, s.ext[c])
    ensures Sets(ctx, k, Cut(ctx, k, s, c), s0, done + {c}, born[|s.ext| := c])
  {
    hide Intro, NeedsCut;
    assert Intro(ctx, k, s.ext[c]);
    CutShape(ctx, k, s, s0, done, born, c);
    hide Origin, Births, Paid;
    var s' := Cut(ctx, k, s, c);
    OriginKept(ctx, k, s.ext, s'.ext, s0);
    CutBirths(ctx, k, s.ext, born, c);
    CutPaid(ctx, k, s.ext, s'.ext, done, born, c);
  }

  lemma CutSets(ctx: Context, k: nat, s: Snap, s0: set<nat>, done: set<nat>, born: map<nat, nat>, c: nat)
    requires Sets(ctx, k, s, s0, done, born) && Labels(ctx, k, s, s0, done, born) && InOrder(s, s0, done)
    requires Next(s, s0, done, c) && NeedsCut(ctx, k, s.ext[c])
    ensures var s', done', born' := Cut(ctx, k, s, c), done + {c}, born[|s.ext| := c];
      Sets(ctx, k, s', s0, done', born') && Labels(ctx, k, s', s0, done', born') && InOrder(s', s0, done')
  {
    hide Labels, Origin, Births, Paid, Objs, Inserted, MaxBelow;
    CutSetsOnly(ctx, k, s, s0, done, born, c);
    CutLabelsKept(ctx, k, s, s0, done, born, c);
    assert s0 <= Range(|s.ext|);
    hide Sets, NeedsCut;
  }

  lemma CutLabelsKept(ctx: Context, k: nat, s: Snap, s0: set<nat>, done: set<nat>, born: map<nat, nat>, c: nat)
    requires Sets(ctx, k, s, s0, done, born) && Labels(ctx, k, s, s0, done, born)
    requires Next(s, s0, done, c) && NeedsCut(ctx, k, s.ext[c])
    requires Sets(ctx, k, Cut(ctx, k, s, c), s0, done + {c}, born[|s.ext| := c])
    ensures Labels(ctx, k, Cut(ctx, k, s, c), s0, done + {c}, born[|s.ext| := c])
  {
    hide Intro, Objs, Attrs, Moved, IsCut, HasExt, Origin, Births, Paid, Inserted, MaxBelow;
    var s', done', born' := Cut(ctx, k, s, c), done + {c}, born[|s.ext| := c];
    assert Loses(ctx, k, s.ext[c]);
    forall n | n in born' ensures s'.rext[n] == Moved(ctx, k, s'.ext[born'[n]]) && s'.rint[n] == {} {
      if n != |s.ext| { assert n in born; }
    }
  }

  lemma CutHasse(ctx: Context, k: nat, s: Snap, s0: set<nat>, done: set<nat>, born: map<nat, nat>, c: nat)
    requires ctx.Valid() && Before(ctx, k, s, s0, done, born) && Next(s, s0, done, c) && NeedsCut(ctx, k, s.ext[c])
    ensures var s' := Cut(ctx, k, s, c);
      LiveHasse(s'.ext, s'.live, s'.lower) && s'.live == s0 + born[|s.ext| := c].Keys
  {
    hide Context.Valid, NeedsCut, LiveHasse, Labels, InOrder, MinAbove, Shape, Origin, Births;
    var e := s.ext[c] * ctx.cols[k];
    hide Sets, MaxBelow;
    CutNeighbours(ctx, k, s, s0, done, born, c);
    InsertHasse(s.ext, s.live, s.lower, e);
    assert born[|s.ext| := c].Keys == born.Keys + {|s.ext|};
  }

  /** Cutting keeps the state. */
  lemma CutBefore(ctx: Context, k: nat, s: Snap, s0: set<nat>, done: set<nat>, born: map<nat, nat>, c: nat)
    requires ctx.Valid() && Before(ctx, k, s, s0, done, born) && Next(s, s0, done, c) && NeedsCut(ctx, k, s.ext[c])
    ensures Before(ctx, k, Cut(ctx, k, s, c), s0, done + {c}, born[|s.ext| := c])
  {
    CutHasse(ctx, k, s, s0, done, born, c);
    CutSets(ctx, k, s, s0, done, born, c);
    CutNotAround(ctx, k, s, s0, done, born, c);
    hide Sets, Labels, InOrder, LiveHasse, NeedsCut, Cut, Next;
  }

  lemma CutNotAround(ctx: Context, k: nat, s: Snap, s0: set<nat>, done: set<nat>, born: map<nat, nat>, c: nat)
    requires Before(ctx, k, s, s0, done, born) && Next(s, s0, done, c) && NeedsCut(ctx, k, s.ext[c])
    ensures forall d | d in done + {c} :: d < |Cut(ctx, k, s, c).ext| && !(ctx.cols[k] <= Cut(ctx, k, s, c).ext[d])
  {
    hide Labels, LiveHasse, Moved;
  }

  // ---- what lies inside the column ----

  /** The concepts inside the column that have been visited or were born. */
  ghost function Subs(ctx: Context, k: nat, s: Snap, s0: set<nat>, done: set<nat>, born: map<nat, nat>): set<nat>
    requires k < |ctx.cols| && s0 + born.Keys <= Range(|s.ext|)
  {
    set c | c in s0 + born.Keys && (c in done || c in born) && s.ext[c] < ctx.cols[k]
  }

  /** Inside a cut lies what has been seen inside the column and is below c. */
  lemma InsideCut(ctx: Context, k: nat, s: Snap, s0: set<nat>, done: set<nat>, born: map<nat, nat>, c: nat, y: nat)
    requires ctx.Valid() && Before(ctx, k, s, s0, done, born) && Next(s, s0, done, c) && NeedsCut(ctx, k, s.ext[c])
      && y in s.live
    ensures y < |s.ext| && (s.ext[y] < s.ext[c] * ctx.cols[k]
      <==> y in Subs(ctx, k, s, s0, done, born) && s.ext[y] < s.ext[c])
  {
    CutNeighbours(ctx, k, s, s0, done, born, c);
    AliveIs(ctx, k, s, s0, done, born, y);
    AliveIs(ctx, k, s, s0, done, born, c);
    var x := s.ext[c];
    var e := x * ctx.cols[k];
    assert IsCut(ctx, k, x, e);
    CutIsNew(ctx, k, x, e, x);
    assert s.ext[y] != e;
    hide Sets, Labels, LiveHasse, Intro, IsCut, Moved, Before, NeedsCut, InOrder;
    InsideBoth(s.ext[y], x, ctx.cols[k]);
    if s.ext[y] < x { SubsetCard(s.ext[y], x); }
  }

  lemma InsideBoth(y: set<nat>, x: set<nat>, col: set<nat>)
    requires y != x * col && x * col < col && x * col < x
    ensures y < x * col <==> y < col && y < x
  {}

  /** The maximal ones among them are the lower neighbours of the cut. */
  lemma CutLower(ctx: Context, k: nat, s: Snap, s0: set<nat>, done: set<nat>, born: map<nat, nat>, c: nat, y: nat)
    requires ctx.Valid() && Before(ctx, k, s, s0, done, born) && Next(s, s0, done, c) && NeedsCut(ctx, k, s.ext[c])
    ensures var subs := Subs(ctx, k, s, s0, done, born);
      y in MaxBelow(s.ext, s.live, s.ext[c] * ctx.cols[k]) <==>
        y in subs && y < |s.ext| && s.ext[y] < s.ext[c]
          && DynOrders.NoneAbove(s.ext, DynOrders.SelectedBelow(s.ext, subs, c), y)
  {
    var e := s.ext[c] * ctx.cols[k];
    forall z | z in s.live ensures z < |s.ext|
      && (s.ext[z] < e <==> z in Subs(ctx, k, s, s0, done, born) && s.ext[z] < s.ext[c]) {
      InsideCut(ctx, k, s, s0, done, born, c, z);
    }
    assert Subs(ctx, k, s, s0, done, born) <= s.live <= Range(|s.ext|) && c < |s.ext|;
    hide Before, NeedsCut, Next;
    MaximalSelected(s.ext, s.live, Subs(ctx, k, s, s0, done, born), c, e, y);
  }

  lemma MaximalSelected(ext: seq<set<nat>>, live: set<nat>, subs: set<nat>, c: nat, e: set<nat>, y: nat)
    requires c < |ext| && subs <= live <= Range(|ext|)
      && forall z | z in live :: ext[z] < e <==> z in subs && ext[z] < ext[c]
    ensures y in MaxBelow(ext, live, e) <==>
      y in subs && y < |ext| && ext[y] < ext[c] && DynOrders.NoneAbove(ext, DynOrders.SelectedBelow(ext, subs, c), y)
  {
    var sel := DynOrders.SelectedBelow(ext, subs, c);
    if y in subs && ext[y] < ext[c] {
      if DynOrders.BelowSome(ext, sel, y) {
        var t :| t in sel && t < |ext| && ext[y] < ext[t];
        assert ext[t] < e;
      }
      if z :| z in live && z < |ext| && ext[y] < ext[z] < e {
        assert z in sel;
      }
    }
  }

  // ---- the concept of the column ----

  /** The upper neighbours of the column that have been visited. */
  ghost function Reached(ctx: Context, k: nat, ext: seq<set<nat>>, live: set<nat>, done: set<nat>): set<nat>
    requires k < |ctx.cols|
  {
    set u | u in MinAbove(ext, live, ctx.cols[k]) && u in done
  }

  /** A visited upper neighbour is c or lies below it. */
  ghost predicate Covered(ctx: Context, k: nat, ext: seq<set<nat>>, live: set<nat>, done: set<nat>, c: nat)
    requires k < |ctx.cols|
  {
    exists d :: d in Reached(ctx, k, ext, live, done) && d < |ext| && c < |ext| && (d == c || ext[d] < ext[c])
  }

  /** The order t with the column drawn above what is inside it and below those of its upper
      neighbours that have been visited. */
  ghost function Drawn(ctx: Context, k: nat, t: Snap, done: set<nat>): Snap
    requires k < |ctx.cols|
  {
    var col := ctx.cols[k];
    Snap(t.ext + [col], t.live + {|t.ext|},
         Inserted(t.lower, MaxBelow(t.ext, t.live, col), Reached(ctx, k, t.ext, t.live, done)),
         t.rext + [Objs(ctx, k + 1, col)], t.rint + [{k}])
  }

  /** What holds of the order under the column: all cuts are made, and every visited concept
      around the column is above a visited neighbour of it. */
  ghost predicate Waiting(ctx: Context, k: nat, t: Snap, s0: set<nat>, done: set<nat>, born: map<nat, nat>) {
    && Sets(ctx, k, t, s0, done, born) && Labels(ctx, k, t, s0, done, born) && InOrder(t, s0, done)
    && t.live == s0 + born.Keys && LiveHasse(t.ext, t.live, t.lower)
    && Around(ctx, k, t, s0, done)
  }

  ghost predicate Around(ctx: Context, k: nat, t: Snap, s0: set<nat>, done: set<nat>)
    requires k < |ctx.cols|
  {
    && (forall c | c in s0 && c < |t.ext| :: t.ext[c] != ctx.cols[k] && (NeedsCut(ctx, k, t.ext[c]) ==> c in done))
    && Reached(ctx, k, t.ext, t.live, done) != {}
    && forall c | c in done && c < |t.ext| && ctx.cols[k] <= t.ext[c] :: Covered(ctx, k, t.ext, t.live, done, c)
  }

  /** When c contains the column and none visited before did, all cuts have been made: what
      needs one lies inside c. */
  lemma CutsAreDone(ctx: Context, k: nat, s: Snap, s0: set<nat>, done: set<nat>, born: map<nat, nat>, c: nat, d: nat)
    requires ctx.Valid() && Sets(ctx, k, s, s0, done, born) && Next(s, s0, done, c) && ctx.cols[k] <= s.ext[c]
      && d in s0 && NeedsCut(ctx, k, s.ext[d])
    ensures d in done
  {
    MovedIsObject(ctx, k, s.ext[d]);
    var o :| o in Moved(ctx, k, s.ext[d]) && o < |ctx.rows| && ObjExt(ctx, k, o) == s.ext[d] && o in ctx.cols[k];
    assert Intro(ctx, k, s.ext[c]);
    HoldsExtent(ctx, k, s.ext[c], o);
    hide Intro, Moved, ObjExt, Sets;
    assert s.ext[d] != s.ext[c];
    SubsetCard(s.ext[d], s.ext[c]);
  }

  /** The column is no extent yet when the first concept around it is visited. */
  lemma ColumnIsNew(ctx: Context, k: nat, s: Snap, s0: set<nat>, done: set<nat>, born: map<nat, nat>, c: nat, y: nat)
    requires ctx.Valid() && Before(ctx, k, s, s0, done, born) && Next(s, s0, done, c) && ctx.cols[k] < s.ext[c]
      && y in s.live
    ensures y < |s.ext| && s.ext[y] != ctx.cols[k]
    ensures y in s0 && ctx.cols[k] < s.ext[y] ==> |s.ext[c]| <= |s.ext[y]|
    ensures y !in s0 ==> s.ext[y] < ctx.cols[k]
  {
    AliveIs(ctx, k, s, s0, done, born, y);
    SubsetCard(ctx.cols[k], s.ext[c]);
    if y !in s0 {
      CutIsNew(ctx, k, s.ext[born[y]], s.ext[y], s.ext[born[y]]);
    }
  }

  /** The first concept visited around the column is one of its upper neighbours. */
  lemma FirstAround(ctx: Context, k: nat, s: Snap, s0: set<nat>, done: set<nat>, born: map<nat, nat>, c: nat)
    requires ctx.Valid() && Before(ctx, k, s, s0, done, born) && Next(s, s0, done, c) && ctx.cols[k] < s.ext[c]
    ensures Reached(ctx, k, s.ext, s.live, done + {c}) == {c}
  {
    var col := ctx.cols[k];
    forall y | y in s.live ensures y < |s.ext| && (col < s.ext[y] ==> y in s0 && |s.ext[c]| <= |s.ext[y]|) {
      ColumnIsNew(ctx, k, s, s0, done, born, c, y);
    }
    assert c in s.live;
    hide Sets, Labels, LiveHasse, Intro;
    forall y | y in s.live ensures !(col < s.ext[y] < s.ext[c]) {
      if col < s.ext[y] < s.ext[c] { SubsetCard(s.ext[y], s.ext[c]); }
    }
    assert IsMinAbove(s.ext, s.live, col, c);
    forall u | u in Reached(ctx, k, s.ext, s.live, done + {c}) ensures u == c {
      assert IsMinAbove(s.ext, s.live, col, u);
    }
  }

  /** Inside the column, all that lives has been visited or was born. */
  lemma InsideColumn(ctx: Context, k: nat, s: Snap, s0: set<nat>, done: set<nat>, born: map<nat, nat>, y: nat)
    requires Sets(ctx, k, s, s0, done, born) && y in s0 + born.Keys
    requires forall d | d in s0 && s.ext[d] < ctx.cols[k] :: d in done
    ensures y < |s.ext| && (s.ext[y] < ctx.cols[k] <==> y in Subs(ctx, k, s, s0, done, born))
  {}

  /** The maximal ones are the lower neighbours of the column. */
  lemma ColumnLower(ctx: Context, k: nat, s: Snap, s0: set<nat>, done: set<nat>, born: map<nat, nat>, y: nat)
    requires Sets(ctx, k, s, s0, done, born) && s.live == s0 + born.Keys
    requires forall d | d in s0 && s.ext[d] < ctx.cols[k] :: d in done
    ensures y in MaxBelow(s.ext, s.live, ctx.cols[k]) <==>
      y in Subs(ctx, k, s, s0, done, born) && DynOrders.NoneAbove(s.ext, Subs(ctx, k, s, s0, done, born), y)
  {
    var subs, e := Subs(ctx, k, s, s0, done, born), ctx.cols[k];
    forall z | z in s.live ensures z < |s.ext| && (s.ext[z] < e <==> z in subs) {
      InsideColumn(ctx, k, s, s0, done, born, z);
    }
    hide Sets;
    if y in subs {
      if DynOrders.BelowSome(s.ext, subs, y) {
        var t :| t in subs && t < |s.ext| && y < |s.ext| && s.ext[y] < s.ext[t];
      }
      if z :| z in s.live && z < |s.ext| && s.ext[y] < s.ext[z] < e {
        assert z in subs;
      }
    }
  }

  /** Visiting a concept that needs no cut. */
  lemma NoCutSets(ctx: Context, k: nat, s: Snap, s0: set<nat>, done: set<nat>, born: map<nat, nat>, c: nat,
                  rext: set<nat>)
    requires Sets(ctx, k, s, s0, done, born) && Labels(ctx, k, s, s0, done, born) && InOrder(s, s0, done)
      && Next(s, s0, done, c)
    requires !NeedsCut(ctx, k, s.ext[c])
    requires rext == if Loses(ctx, k, s.ext[c]) then Objs(ctx, k, s.ext[c]) - ctx.cols[k] else Objs(ctx, k, s.ext[c])
    ensures var s' := s.(rext := s.rext[c := rext]);
      Sets(ctx, k, s', s0, done + {c}, born) && Labels(ctx, k, s', s0, done + {c}, born) && InOrder(s', s0, done + {c})
  {
    hide Intro, IsCut, Objs, Attrs, Moved, HasExt, Origin, Births, NeedsCut, Loses;
  }

  /** What c keeps when it is the first concept found around the column. */
  ghost function Kept(ctx: Context, k: nat, x: set<nat>): set<nat>
    requires k < |ctx.cols|
  {
    if Moved(ctx, k, x) != {} then Objs(ctx, k, x) - ctx.cols[k] else Objs(ctx, k, x)
  }

  lemma FirstWaits(ctx: Context, k: nat, s: Snap, s0: set<nat>, done: set<nat>, born: map<nat, nat>, c: nat)
    requires ctx.Valid() && Before(ctx, k, s, s0, done, born) && Next(s, s0, done, c) && ctx.cols[k] < s.ext[c]
    ensures c < |s.rext| == |s.ext|
      && Waiting(ctx, k, s.(rext := s.rext[c := Kept(ctx, k, s.ext[c])]), s0, done + {c}, born)
    ensures Reached(ctx, k, s.ext, s.live, done + {c}) == {c}
  {
    var col, x := ctx.cols[k], s.ext[c];
    assert Loses(ctx, k, x) <==> Moved(ctx, k, x) != {};
    NoCutSets(ctx, k, s, s0, done, born, c, Kept(ctx, k, x));
    FirstAround(ctx, k, s, s0, done, born, c);
    forall y | y in s0 ensures y < |s.ext| && s.ext[y] != col {
      ColumnIsNew(ctx, k, s, s0, done, born, c, y);
    }
    forall d | d in s0 && NeedsCut(ctx, k, s.ext[d]) ensures d in done {
      CutsAreDone(ctx, k, s, s0, done, born, c, d);
    }
    hide Sets, Labels, InOrder, LiveHasse, Moved, Objs, NeedsCut, MaxBelow, MinAbove, Loses, Kept;
    forall d | d in done + {c} && d < |s.ext| && col <= s.ext[d] ensures Covered(ctx, k, s.ext, s.live, done + {c}, d) {
      assert d == c && c in Reached(ctx, k, s.ext, s.live, done + {c});
    }
  }

  /** The concepts that need not be looked at any more: above a visited upper neighbour. */
  ghost function Settled(ctx: Context, k: nat, t: Snap, done: set<nat>): set<nat>
    requires k < |ctx.cols|
  {
    set y | y in t.live && Covered(ctx, k, t.ext, t.live, done, y)
  }

  ghost function UpSet(t: Snap, c: nat): set<nat>
    requires c < |t.ext|
  {
    set y | y in t.live && y < |t.ext| && (y == c || t.ext[c] < t.ext[y])
  }

  /** Around the column, only its least introducing set can lose objects to it. */
  lemma LargerLosesNothing(ctx: Context, k: nat, x: set<nat>, y: set<nat>)
    requires ctx.Valid() && k < |ctx.cols| && Intro(ctx, k, y) && ctx.cols[k] <= y && !(x <= y)
    ensures Moved(ctx, k, x) == {}
  {
    if Moved(ctx, k, x) != {} {
      MovedIsObject(ctx, k, x);
      var o :| o in Moved(ctx, k, x) && o < |ctx.rows| && ObjExt(ctx, k, o) == x && o in ctx.cols[k];
      HoldsExtent(ctx, k, y, o);
    }
  }

  lemma ReachedIs(ctx: Context, k: nat, t: Snap, s0: set<nat>, done: set<nat>, born: map<nat, nat>, d: nat)
    requires Waiting(ctx, k, t, s0, done, born) && d in Reached(ctx, k, t.ext, t.live, done)
    ensures d in s0 && d in done && d < |t.ext| && ctx.cols[k] < t.ext[d] && Intro(ctx, k, t.ext[d]) && d in t.live
    ensures forall y | y in t.live && y < |t.ext| :: !(ctx.cols[k] < t.ext[y] < t.ext[d])
  {
    hide Intro, LiveHasse, Births, Paid, Labels, InOrder, Around;
    assert IsMinAbove(t.ext, t.live, ctx.cols[k], d);
  }

  lemma NotMinimal(ext: seq<set<nat>>, live: set<nat>, e: set<nat>, c: nat, d: nat)
    requires d in live && d < |ext| && c < |ext| && e < ext[d] && ext[d] < ext[c]
    ensures c !in MinAbove(ext, live, e)
  {}

  lemma NotAround(ext: seq<set<nat>>, live: set<nat>, e: set<nat>, c: nat)
    requires c < |ext| && !(e <= ext[c])
    ensures c !in MinAbove(ext, live, e)
  {}

  /** What lies above a visited neighbour is no neighbour itself. */
  lemma CoveredIsNone(ctx: Context, k: nat, t: Snap, s0: set<nat>, done: set<nat>, born: map<nat, nat>, c: nat)
      returns (d: nat)
    requires Waiting(ctx, k, t, s0, done, born) && c !in done && Covered(ctx, k, t.ext, t.live, done, c)
    ensures d in s0 && d < |t.ext| && c < |t.ext| && ctx.cols[k] < t.ext[d] && t.ext[d] < t.ext[c]
      && Intro(ctx, k, t.ext[d])
    ensures c !in MinAbove(t.ext, t.live, ctx.cols[k])
  {
    d :| d in Reached(ctx, k, t.ext, t.live, done) && d < |t.ext| && c < |t.ext| && (d == c || t.ext[d] < t.ext[c]);
    ReachedIs(ctx, k, t, s0, done, born, d);
    hide Waiting;
    NotMinimal(t.ext, t.live, ctx.cols[k], c, d);
  }

  lemma SameReached(ctx: Context, k: nat, t: Snap, s0: set<nat>, done: set<nat>, born: map<nat, nat>, c: nat)
    requires Waiting(ctx, k, t, s0, done, born) && Next(t, s0, done, c)
    requires Covered(ctx, k, t.ext, t.live, done, c) || !(ctx.cols[k] <= t.ext[c])
    ensures Reached(ctx, k, t.ext, t.live, done + {c}) == Reached(ctx, k, t.ext, t.live, done)
  {
    assert k < |ctx.cols| && c < |t.ext| && c !in done;
    hide Waiting, Covered, MinAbove, Next;
    if Covered(ctx, k, t.ext, t.live, done, c) {
      var d := CoveredIsNone(ctx, k, t, s0, done, born, c);
    } else {
      NotAround(t.ext, t.live, ctx.cols[k], c);
    }
  }

  lemma SkippedKeeps(ctx: Context, k: nat, t: Snap, s0: set<nat>, done: set<nat>, born: map<nat, nat>, c: nat)
    requires ctx.Valid() && Waiting(ctx, k, t, s0, done, born) && Next(t, s0, done, c)
    requires Covered(ctx, k, t.ext, t.live, done, c) || !(ctx.cols[k] <= t.ext[c])
    ensures c < |t.ext| && !NeedsCut(ctx, k, t.ext[c]) && !Loses(ctx, k, t.ext[c])
  {
    assert k < |ctx.cols| && c < |t.ext| && !NeedsCut(ctx, k, t.ext[c]);
    if Covered(ctx, k, t.ext, t.live, done, c) {
      var d := CoveredIsNone(ctx, k, t, s0, done, born, c);
      hide Waiting;
      LargerLosesNothing(ctx, k, t.ext[c], t.ext[d]);
    }
  }

  /** One more concept visited that loses nothing. */
  lemma VisitedSets(ctx: Context, k: nat, s: Snap, s0: set<nat>, done: set<nat>, born: map<nat, nat>, c: nat)
    requires Sets(ctx, k, s, s0, done, born) && Labels(ctx, k, s, s0, done, born) && InOrder(s, s0, done)
      && Next(s, s0, done, c)
    requires !NeedsCut(ctx, k, s.ext[c]) && !Loses(ctx, k, s.ext[c])
    ensures Sets(ctx, k, s, s0, done + {c}, born) && Labels(ctx, k, s, s0, done + {c}, born)
      && InOrder(s, s0, done + {c})
  {
    NoCutSets(ctx, k, s, s0, done, born, c, s.rext[c]);
    assert s.rext[c := s.rext[c]] == s.rext;
  }

  lemma SkipAfter(ctx: Context, k: nat, t: Snap, s0: set<nat>, done: set<nat>, born: map<nat, nat>, c: nat)
    requires ctx.Valid() && Waiting(ctx, k, t, s0, done, born) && Next(t, s0, done, c)
    requires Covered(ctx, k, t.ext, t.live, done, c) || !(ctx.cols[k] <= t.ext[c])
    ensures Waiting(ctx, k, t, s0, done + {c}, born)
    ensures Drawn(ctx, k, t, done + {c}) == Drawn(ctx, k, t, done)
      && Settled(ctx, k, t, done + {c}) == Settled(ctx, k, t, done)
  {
    hide Sets, Labels, InOrder, LiveHasse, NeedsCut, Loses, Reached, MaxBelow;
    SkippedKeeps(ctx, k, t, s0, done, born, c);
    SameReached(ctx, k, t, s0, done, born, c);
    VisitedSets(ctx, k, t, s0, done, born, c);
    forall d ensures Covered(ctx, k, t.ext, t.live, done + {c}, d) <==> Covered(ctx, k, t.ext, t.live, done, d) {}
    hide Covered;
  }

  lemma BornInside(ctx: Context, k: nat, t: Snap, s0: set<nat>, done: set<nat>, born: map<nat, nat>, y: nat)
    requires Sets(ctx, k, t, s0, done, born) && y in s0 + born.Keys
    ensures y < |t.ext| && (y !in s0 ==> t.ext[y] <= ctx.cols[k])
  {
    AliveIs(ctx, k, t, s0, done, born, y);
  }

  /** A concept around the column that is not settled is an upper neighbour of it. */
  lemma JoinIsNeighbour(ctx: Context, k: nat, t: Snap, s0: set<nat>, done: set<nat>, born: map<nat, nat>, c: nat)
    requires ctx.Valid() && Waiting(ctx, k, t, s0, done, born) && Next(t, s0, done, c)
    requires !Covered(ctx, k, t.ext, t.live, done, c) && ctx.cols[k] <= t.ext[c]
    ensures c < |t.ext| && c in t.live && c in MinAbove(t.ext, t.live, ctx.cols[k]) && ctx.cols[k] < t.ext[c]
  {
    var col := ctx.cols[k];
    assert t.ext[c] != col && c in t.live;
    forall y | y in t.live && y < |t.ext| ensures !(col < t.ext[y] < t.ext[c]) {
      if col < t.ext[y] < t.ext[c] {
        BornInside(ctx, k, t, s0, done, born, y);
        hide Sets, Labels, InOrder, LiveHasse;
        SubsetCard(t.ext[y], t.ext[c]);
        StillCovered(ctx, k, t.ext, t.live, done, y, c);
      }
    }
    hide Waiting;
    assert IsMinAbove(t.ext, t.live, col, c);
  }

  lemma StillCovered(ctx: Context, k: nat, ext: seq<set<nat>>, live: set<nat>, done: set<nat>, y: nat, c: nat)
    requires k < |ctx.cols| && Covered(ctx, k, ext, live, done, y) && y < |ext| && c < |ext| && ext[y] < ext[c]
    ensures Covered(ctx, k, ext, live, done, c)
  {
    var d :| d in Reached(ctx, k, ext, live, done) && d < |ext| && (d == y || ext[d] < ext[y]);
    if d != y { Chain(ext[d], ext[y], ext[c]); }
  }

  lemma JoinReached(ctx: Context, k: nat, t: Snap, s0: set<nat>, done: set<nat>, born: map<nat, nat>, c: nat)
    requires ctx.Valid() && Waiting(ctx, k, t, s0, done, born) && Next(t, s0, done, c)
    requires !Covered(ctx, k, t.ext, t.live, done, c) && ctx.cols[k] <= t.ext[c]
    ensures Reached(ctx, k, t.ext, t.live, done + {c}) == Reached(ctx, k, t.ext, t.live, done) + {c}
    ensures c < |t.ext| && c !in Reached(ctx, k, t.ext, t.live, done) && t.live <= Range(|t.ext|)
  {
    assert t.live <= Range(|t.ext|);
    hide Waiting, MinAbove, Covered;
    JoinIsNeighbour(ctx, k, t, s0, done, born, c);
  }

  /** One more upper neighbour. */
  lemma JoinAfter(ctx: Context, k: nat, t: Snap, s0: set<nat>, done: set<nat>, born: map<nat, nat>, c: nat)
    requires ctx.Valid() && Waiting(ctx, k, t, s0, done, born) && Next(t, s0, done, c)
    requires !Covered(ctx, k, t.ext, t.live, done, c) && ctx.cols[k] <= t.ext[c]
    ensures Waiting(ctx, k, t, s0, done + {c}, born)
    ensures Reached(ctx, k, t.ext, t.live, done + {c}) == Reached(ctx, k, t.ext, t.live, done) + {c}
    ensures c < |t.ext| && c !in Reached(ctx, k, t.ext, t.live, done)
    ensures Settled(ctx, k, t, done + {c}) == Settled(ctx, k, t, done) + UpSet(t, c)
  {
    assert k < |ctx.cols|;
    hide Covered, Reached, Next, Sets, Labels, InOrder, LiveHasse, Around, Settled;
    JoinReached(ctx, k, t, s0, done, born, c);
    JoinAround(ctx, k, t, s0, done, born, c);
    hide Waiting;
    SettledGrows(ctx, k, t, done, c);
  }

  lemma SettledGrows(ctx: Context, k: nat, t: Snap, done: set<nat>, c: nat)
    requires k < |ctx.cols| && c < |t.ext| && t.live <= Range(|t.ext|)
    requires Reached(ctx, k, t.ext, t.live, done + {c}) == Reached(ctx, k, t.ext, t.live, done) + {c}
    ensures Settled(ctx, k, t, done + {c}) == Settled(ctx, k, t, done) + UpSet(t, c)
  {
    hide Covered, Reached;
    forall d | d in t.live ensures Covered(ctx, k, t.ext, t.live, done + {c}, d)
      <==> Covered(ctx, k, t.ext, t.live, done, d) || d == c || t.ext[c] < t.ext[d] {
      JoinCovers(ctx, k, t, done, c, d);
    }
  }

  lemma JoinAround(ctx: Context, k: nat, t: Snap, s0: set<nat>, done: set<nat>, born: map<nat, nat>, c: nat)
    requires ctx.Valid() && Waiting(ctx, k, t, s0, done, born) && Next(t, s0, done, c)
    requires !Covered(ctx, k, t.ext, t.live, done, c) && ctx.cols[k] <= t.ext[c] && c < |t.ext|
    requires Reached(ctx, k, t.ext, t.live, done + {c}) == Reached(ctx, k, t.ext, t.live, done) + {c}
    ensures Waiting(ctx, k, t, s0, done + {c}, born)
  {
    hide Context.Valid, Next, Reached, Sets, Labels, InOrder, LiveHasse, Origin;
    JoinIsNeighbour(ctx, k, t, s0, done, born, c);
    JoinLosesNothing(ctx, k, t, s0, done, born, c);
    VisitedSets(ctx, k, t, s0, done, born, c);
    hide NeedsCut, Loses, MinAbove, MaxBelow, Covered;
    forall d: nat | d in done + {c} && d < |t.ext| && ctx.cols[k] <= t.ext[d]
      ensures Covered(ctx, k, t.ext, t.live, done + {c}, d) {
      JoinCovers(ctx, k, t, done, c, d);
    }
  }

  lemma JoinCovers(ctx: Context, k: nat, t: Snap, done: set<nat>, c: nat, d: nat)
    requires k < |ctx.cols| && c < |t.ext| && d < |t.ext|
    requires Reached(ctx, k, t.ext, t.live, done + {c}) == Reached(ctx, k, t.ext, t.live, done) + {c}
    ensures Covered(ctx, k, t.ext, t.live, done + {c}, d)
      <==> Covered(ctx, k, t.ext, t.live, done, d) || d == c || t.ext[c] < t.ext[d]
  {
    hide Reached;
  }

  lemma JoinLosesNothing(ctx: Context, k: nat, t: Snap, s0: set<nat>, done: set<nat>, born: map<nat, nat>, c: nat)
    requires ctx.Valid() && Waiting(ctx, k, t, s0, done, born) && Next(t, s0, done, c)
    requires c in t.live && c in MinAbove(t.ext, t.live, ctx.cols[k]) && ctx.cols[k] < t.ext[c]
    ensures !NeedsCut(ctx, k, t.ext[c]) && !Loses(ctx, k, t.ext[c])
  {
    var d :| d in Reached(ctx, k, t.ext, t.live, done);
    ReachedIs(ctx, k, t, s0, done, born, d);
    MinimalsApart(t, ctx.cols[k], c, d);
    hide Waiting, Next;
    LargerLosesNothing(ctx, k, t.ext[c], t.ext[d]);
  }

  lemma MinimalsApart(t: Snap, e: set<nat>, c: nat, d: nat)
    requires LiveHasse(t.ext, t.live, t.lower) && c != d && c in MinAbove(t.ext, t.live, e)
      && d in MinAbove(t.ext, t.live, e)
    ensures !(t.ext[c] <= t.ext[d])
  {
    assert IsMinAbove(t.ext, t.live, e, c) && IsMinAbove(t.ext, t.live, e, d);
    assert t.ext[c] != t.ext[d];
  }

  // ---- the end of the visits ----

  /** All that lives after the visits: the column, the concepts of the beginning and the
      cuts; the labels are those for k + 1 attributes, and the edges are the covers. */
  ghost predicate Mid(ctx: Context, k: nat, s: Snap) {
    && k < |ctx.cols| && |s.rext| == |s.rint| == |s.ext| && LiveHasse(s.ext, s.live, s.lower)
    && (forall c | c in s.live :: MidOk(ctx, k, s.ext[c], s.rext[c], s.rint[c]))
    && forall x | x == ctx.cols[k] || Intro(ctx, k, x) || CutOut(ctx, k, x) :: HasExt(s.ext, s.live, x)
  }

  /** A concept that is not dropped introduces what its labels say. */
  ghost predicate MidOk(ctx: Context, k: nat, x: set<nat>, rext: set<nat>, rint: set<nat>)
    requires k < |ctx.cols|
  {
    && (x == ctx.cols[k] || Intro(ctx, k, x) || CutOut(ctx, k, x))
    && (!Dropped(ctx, k, x) ==> rext == Objs(ctx, k + 1, x)) && rint == Attrs(ctx, k + 1, x)
  }

  lemma OldIsMid(ctx: Context, k: nat, x: set<nat>, rext: set<nat>)
    requires ctx.Valid() && k < |ctx.cols| && !Intro(ctx, k, ctx.cols[k]) && Intro(ctx, k, x)
    requires rext == if Loses(ctx, k, x) then Objs(ctx, k, x) - ctx.cols[k] else Objs(ctx, k, x)
    ensures MidOk(ctx, k, x, rext, Attrs(ctx, k, x))
  {
    NewObjects(ctx, k, x);
    AttrsStep(ctx, k, x);
    if !(x <= ctx.cols[k]) && Moved(ctx, k, x) == {} {
      forall o | o in Objs(ctx, k, x) ensures o !in ctx.cols[k] {
        assert o !in Moved(ctx, k, x);
      }
    }
  }

  lemma CutIsMid(ctx: Context, k: nat, x: set<nat>, y: set<nat>)
    requires ctx.Valid() && k < |ctx.cols| && !Intro(ctx, k, ctx.cols[k]) && IsCut(ctx, k, x, y)
    ensures MidOk(ctx, k, y, Moved(ctx, k, x), {})
  {
    CutLabels(ctx, k, x, y);
  }

  lemma ColumnIsMid(ctx: Context, k: nat)
    requires ctx.Valid() && k < |ctx.cols| && !Intro(ctx, k, ctx.cols[k])
    ensures MidOk(ctx, k, ctx.cols[k], Objs(ctx, k + 1, ctx.cols[k]), {k})
  {
    ColumnLabels(ctx, k);
  }

  lemma NotIntroduced(ctx: Context, k: nat, t: Snap, s0: set<nat>, done: set<nat>, born: map<nat, nat>)
    requires Sets(ctx, k, t, s0, done, born) && forall c | c in s0 && c < |t.ext| :: t.ext[c] != ctx.cols[k]
    ensures !Intro(ctx, k, ctx.cols[k])
  {
    hide Intro;
    HasNoExt(t.ext, s0, ctx.cols[k]);
  }

  lemma HasNoExt(ext: seq<set<nat>>, s0: set<nat>, x: set<nat>)
    requires forall c | c in s0 && c < |ext| :: ext[c] != x
    ensures !HasExt(ext, s0, x)
  {}

  /** Everything under the column is as it should be. */
  lemma UnderIsMid(ctx: Context, k: nat, t: Snap, s0: set<nat>, born: map<nat, nat>, c: nat)
    requires ctx.Valid() && Sets(ctx, k, t, s0, s0, born) && Labels(ctx, k, t, s0, s0, born) && c in s0 + born.Keys
    requires forall c | c in s0 && c < |t.ext| :: t.ext[c] != ctx.cols[k]
    ensures c < |t.ext| && MidOk(ctx, k, t.ext[c], t.rext[c], t.rint[c])
  {
    NotIntroduced(ctx, k, t, s0, s0, born);
    AliveIs(ctx, k, t, s0, s0, born, c);
    hide Sets, MidOk, Loses, Intro, IsCut;
    if c in s0 {
      OldIsMid(ctx, k, t.ext[c], t.rext[c]);
    } else {
      CutIsMid(ctx, k, t.ext[born[c]], t.ext[c]);
    }
  }

  /** Every cut is alive once all concepts are visited. */
  lemma AllCutsLive(ctx: Context, k: nat, t: Snap, s0: set<nat>, born: map<nat, nat>, x: set<nat>)
    requires Sets(ctx, k, t, s0, s0, born) && (Intro(ctx, k, x) || CutOut(ctx, k, x))
    ensures HasExt(t.ext, s0 + born.Keys, x)
  {
    hide Intro, Apart, Moved;
    if Intro(ctx, k, x) {
      assert HasExt(t.ext, s0, x);
    } else {
      var z :| IsCut(ctx, k, z, x);
      assert HasExt(t.ext, s0, z);
      var c :| c in s0 && c < |t.ext| && t.ext[c] == z;
      assert NeedsCut(ctx, k, t.ext[c]);
      var n :| n in born && born[n] == c;
      assert t.ext[n] == x;
    }
  }

  /** The visits end with the column drawn below all its upper neighbours. */
  lemma DrawnIsMid(ctx: Context, k: nat, t: Snap, s0: set<nat>, born: map<nat, nat>)
    requires ctx.Valid() && Sets(ctx, k, t, s0, s0, born) && Labels(ctx, k, t, s0, s0, born)
    requires t.live == s0 + born.Keys && LiveHasse(t.ext, t.live, t.lower)
    requires forall c | c in s0 && c < |t.ext| :: t.ext[c] != ctx.cols[k]
    ensures Mid(ctx, k, Drawn(ctx, k, t, s0))
  {
    var col, s := ctx.cols[k], Drawn(ctx, k, t, s0);
    forall y | y in t.live ensures y < |t.ext| && t.ext[y] != col && (col < t.ext[y] ==> y in s0) {
      BornInside(ctx, k, t, s0, s0, born, y);
      AliveIs(ctx, k, t, s0, s0, born, y);
      if y !in s0 { CutIsNew(ctx, k, t.ext[born[y]], t.ext[y], t.ext[born[y]]); }
    }
    assert Reached(ctx, k, t.ext, t.live, s0) == MinAbove(t.ext, t.live, col);
    InsertHasse(t.ext, t.live, t.lower, col);
    NotIntroduced(ctx, k, t, s0, s0, born);
    forall c | c in s.live ensures MidOk(ctx, k, s.ext[c], s.rext[c], s.rint[c]) {
      if c < |t.ext| { UnderIsMid(ctx, k, t, s0, born, c); } else { ColumnIsMid(ctx, k); }
    }
    hide MidOk, LiveHasse, Intro, CutOut, Reached;
    forall x | x == col || Intro(ctx, k, x) || CutOut(ctx, k, x) ensures HasExt(s.ext, s.live, x) {
      if x == col {
        assert s.ext[|t.ext|] == col;
      } else {
        AllCutsLive(ctx, k, t, s0, born, x);
        HasExtKept(t.ext, s.ext, t.live, x);
        var c :| c in t.live && c < |s.ext| && s.ext[c] == x;
        assert c in s.live;
      }
    }
  }

  lemma HasExtKept(ext: seq<set<nat>>, ext': seq<set<nat>>, live: set<nat>, x: set<nat>)
    requires HasExt(ext, live, x) && ext <= ext'
    ensures HasExt(ext', live, x)
  {
    var d :| d in live && d < |ext| && ext[d] == x;
    assert ext'[d] == x;
  }

  // ---- removal ----

  /** Part of the dropped concepts have been removed. */
  ghost predicate Removing(ctx: Context, k: nat, s: Snap) {
    && k < |ctx.cols| && |s.rext| == |s.rint| == |s.ext| && LiveHasse(s.ext, s.live, s.lower)
    && (forall c | c in s.live :: MidOk(ctx, k, s.ext[c], s.rext[c], s.rint[c]))
    && forall x | (x == ctx.cols[k] || Intro(ctx, k, x) || CutOut(ctx, k, x))
      && !Dropped(ctx, k, x) :: HasExt(s.ext, s.live, x)
  }

  lemma RemoveDropped(ctx: Context, k: nat, s: Snap, r: nat)
    requires Removing(ctx, k, s) && r in s.live && Dropped(ctx, k, s.ext[r])
    ensures Removing(ctx, k, s.(live := s.live - {r}, lower := Removed(s.ext, s.live, s.lower, r)))
    ensures s.rint[r] == {}
  {
    RemoveHasse(s.ext, s.live, s.lower, r);
    assert MidOk(ctx, k, s.ext[r], s.rext[r], s.rint[r]);
    DroppedHasNone(ctx, k, s.ext[r]);
    hide MidOk, LiveHasse, Intro, CutOut, Dropped;
    var live' := s.live - {r};
    forall x | (x == ctx.cols[k] || Intro(ctx, k, x) || CutOut(ctx, k, x)) && !Dropped(ctx, k, x)
      ensures HasExt(s.ext, live', x) {
      var c :| c in s.live && c < |s.ext| && s.ext[c] == x;
      assert c in live';
    }
  }

  lemma DroppedHasNone(ctx: Context, k: nat, x: set<nat>)
    requires k < |ctx.cols| && Dropped(ctx, k, x)
    ensures Attrs(ctx, k + 1, x) == {}
  {
    AttrsStep(ctx, k, x);
  }

  /** Without the dropped concepts the order is that for one more attribute. */
  lemma RemovedIsOk(ctx: Context, k: nat, s: Snap)
    requires ctx.Valid() && Removing(ctx, k, s) && !Intro(ctx, k, ctx.cols[k])
    requires forall c | c in s.live :: c < |s.ext| && !Dropped(ctx, k, s.ext[c])
    ensures AresOk(ctx, k + 1, s)
  {
    forall c | c in s.live ensures Intro(ctx, k + 1, s.ext[c]) && s.rext[c] == Objs(ctx, k + 1, s.ext[c])
      && s.rint[c] == Attrs(ctx, k + 1, s.ext[c]) {
      assert MidOk(ctx, k, s.ext[c], s.rext[c], s.rint[c]);
      IntroNext(ctx, k, s.ext[c]);
    }
    hide LiveHasse;
    forall x | Intro(ctx, k + 1, x) ensures HasExt(s.ext, s.live, x) {
      IntroNext(ctx, k, x);
      NewIsNotDropped(ctx, k, x);
      hide Intro, CutOut, Dropped, MidOk;
    }
  }

  /** The column and the cuts are never dropped. */
  lemma NewIsNotDropped(ctx: Context, k: nat, x: set<nat>)
    requires ctx.Valid() && k < |ctx.cols|
      && (x == ctx.cols[k] || CutOut(ctx, k, x) || (Intro(ctx, k, x) && !Dropped(ctx, k, x)))
    ensures !Dropped(ctx, k, x)
  {
    if CutOut(ctx, k, x) {
      var z :| IsCut(ctx, k, z, x);
      CutIsNew(ctx, k, z, x, z);
    }
  }
}
