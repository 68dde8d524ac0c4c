/** What the searches of Ares compute in the states of a step. */
module AresMoves {
  import opened FiniteSets
  import opened FormalContext
  import opened Reachability
  import opened LiveDiagram
  import opened AresTheory
  import opened AresStep

  ghost function Family(ext: seq<set<nat>>, live: set<nat>): iset<set<nat>> {
    iset x | HasExt(ext, live, x)
  }

  // ---- reduced extents ----

  /** Below e, everything is inside one of the largest. */
  lemma {:induction false} LargestAround(ext: seq<set<nat>>, live: set<nat>, e: set<nat>, y: nat) returns (w: nat)
    requires live <= Range(|ext|) && y in live && ext[y] < e
    ensures w in MaxBelow(ext, live, e) && w < |ext| && ext[y] <= ext[w]
    decreases |e - ext[y]|
  {
    if k :| k in live && k < |ext| && ext[y] < ext[k] < e {
      assert e - ext[k] < e - ext[y] by { var x :| x in ext[k] && x !in ext[y]; }
      SubsetCard(e - ext[k], e - ext[y]);
      w := LargestAround(ext, live, e, k);
    } else {
      w := y;
    }
  }

  /** To leave out the largest sets inside e is to leave out all sets inside e. */
  lemma LargestSuffice(ext: seq<set<nat>>, live: set<nat>, e: set<nat>, o: nat)
    requires live <= Range(|ext|)
    ensures InSmaller(Family(ext, live), e, o) <==> exists d :: d in MaxBelow(ext, live, e) && d < |ext| && o in ext[d]
  {
    if InSmaller(Family(ext, live), e, o) {
      var x :| x in Family(ext, live) && x < e && o in x;
      var y :| y in live && y < |ext| && ext[y] == x;
      var w := LargestAround(ext, live, e, y);
    }
    if d :| d in MaxBelow(ext, live, e) && d < |ext| && o in ext[d] {
      assert HasExt(ext, live, ext[d]);
    }
  }

  lemma LowerAreLargest(ext: seq<set<nat>>, live: set<nat>, lower: seq<set<nat>>, c: nat)
    requires LiveHasse(ext, live, lower) && c in live
    ensures c < |ext| && lower[c] == MaxBelow(ext, live, ext[c])
  {
    forall d ensures d in lower[c] <==> d in MaxBelow(ext, live, ext[c]) {
      assert d in lower[c] <==> d in live && IsCover(ext, live, d, c);
    }
  }

  /** What a reduced extent is: the extent without those of the lower covers. */
  ghost predicate IsReduced(ext: seq<set<nat>>, row: set<nat>, e: set<nat>, red: set<nat>) {
    forall o: nat :: o in red <==> o in e && forall d | d in row :: d < |ext| && o !in ext[d]
  }

  lemma ReducedMeans(ext: seq<set<nat>>, live: set<nat>, e: set<nat>, red: set<nat>, o: nat)
    requires live <= Range(|ext|) && IsReduced(ext, MaxBelow(ext, live, e), e, red)
    ensures o in red <==> o in e && !InSmaller(Family(ext, live), e, o)
  {
    LargestSuffice(ext, live, e, o);
    assert forall d | d in MaxBelow(ext, live, e) :: d < |ext|;
  }

  lemma IntroInFamily(ctx: Context, k: nat, s: Snap, s0: set<nat>, live: set<nat>, x: set<nat>)
    requires Origin(ctx, k, s.ext, s0) && s0 <= live && Intro(ctx, k, x)
    ensures x in Family(s.ext, live)
  {
    hide Intro;
    assert HasExt(s.ext, s0, x);
  }

  /** Where a member of the family that introduces nothing comes from: a set that does not
      contain the extent whose turn it is. */
  lemma CutOfOther(ctx: Context, k: nat, s: Snap, s0: set<nat>, done: set<nat>, born: map<nat, nat>, c: nat, y: nat)
    requires Sets(ctx, k, s, s0, done, born) && LiveHasse(s.ext, s0 + born.Keys, s.lower) && Next(s, s0, done, c)
    requires y in born && y < |s.ext|
    ensures born[y] < |s.ext| && c < |s.ext| && IsCut(ctx, k, s.ext[born[y]], s.ext[y]) && !(s.ext[c] <= s.ext[born[y]])
  {
    var z := born[y];
    assert z in done && z in s0;
    hide Intro, IsCut;
    assert s.ext[c] != s.ext[z] && |s.ext[z]| <= |s.ext[c]|;
    if s.ext[c] <= s.ext[z] { SubsetCard(s.ext[c], s.ext[z]); }
  }

  lemma FamilyIsAt(ctx: Context, k: nat, s: Snap, s0: set<nat>, done: set<nat>, born: map<nat, nat>, c: nat)
    requires Sets(ctx, k, s, s0, done, born) && LiveHasse(s.ext, s0 + born.Keys, s.lower) && Next(s, s0, done, c)
    ensures c < |s.ext| && FamilyAt(ctx, k, Family(s.ext, s0 + born.Keys), s.ext[c])
  {
    var family := Family(s.ext, s0 + born.Keys);
    forall x | Intro(ctx, k, x) ensures x in family {
      IntroInFamily(ctx, k, s, s0, s0 + born.Keys, x);
    }
    forall x | x in family && !Intro(ctx, k, x) ensures exists z :: IsCut(ctx, k, z, x) && !(s.ext[c] <= z) {
      var y :| y in s0 + born.Keys && y < |s.ext| && s.ext[y] == x;
      assert y !in s0 by { hide Intro; }
      CutOfOther(ctx, k, s, s0, done, born, c, y);
    }
  }

  /** The reduced extent of the concept whose turn it is: the objects it introduces. */
  lemma ReducedIsOwn(ctx: Context, k: nat, s: Snap, s0: set<nat>, done: set<nat>, born: map<nat, nat>, c: nat,
                     red: set<nat>)
    requires ctx.Valid() && Sets(ctx, k, s, s0, done, born) && LiveHasse(s.ext, s0 + born.Keys, s.lower)
      && Next(s, s0, done, c)
    requires s.live == s0 + born.Keys && c < |s.ext| && IsReduced(s.ext, s.lower[c], s.ext[c], red)
    ensures red == Objs(ctx, k, s.ext[c])
  {
    FamilyIsAt(ctx, k, s, s0, done, born, c);
    LowerAreLargest(s.ext, s.live, s.lower, c);
    assert Intro(ctx, k, s.ext[c]) && s.live <= Range(|s.ext|);
    hide Sets, LiveHasse, MaxBelow, Intro, Objs, FamilyAt, Next, IsReduced;
    forall o: nat ensures o in red <==> o in Objs(ctx, k, s.ext[c]) {
      ReducedMeans(s.ext, s.live, s.ext[c], red, o);
      ReducedIsObjs(ctx, k, Family(s.ext, s.live), s.ext[c], o);
    }
  }

  /** Concepts added at the end do not change it. */
  lemma ReducedLater(ext: seq<set<nat>>, ext': seq<set<nat>>, row: set<nat>, e: set<nat>, red: set<nat>)
    requires ext <= ext' && (forall d | d in row :: d < |ext|) && IsReduced(ext', row, e, red)
    ensures IsReduced(ext, row, e, red)
  {
    assert forall d | d in row :: ext'[d] == ext[d];
  }

  lemma FamilyIsInside(ctx: Context, k: nat, t: Snap, s0: set<nat>, done: set<nat>, born: map<nat, nat>)
    requires ctx.Valid() && Sets(ctx, k, t, s0, done, born)
    requires forall c | c in s0 && c < |t.ext| && NeedsCut(ctx, k, t.ext[c]) :: c in done
    ensures FamilyInside(ctx, k, Family(t.ext, s0 + born.Keys))
  {
    var family := Family(t.ext, s0 + born.Keys);
    forall x | x < ctx.cols[k] ensures x in family <==> Intro(ctx, k, x) || CutOut(ctx, k, x) {
      if Intro(ctx, k, x) { IntroInFamily(ctx, k, t, s0, s0 + born.Keys, x); }
      if CutOut(ctx, k, x) { CutInFamily(ctx, k, t, s0, done, born, x); }
      if x in family {
        var y :| y in s0 + born.Keys && y < |t.ext| && t.ext[y] == x;
        AliveIs(ctx, k, t, s0, done, born, y);
      }
    }
  }

  lemma CutInFamily(ctx: Context, k: nat, t: Snap, s0: set<nat>, done: set<nat>, born: map<nat, nat>, x: set<nat>)
    requires Sets(ctx, k, t, s0, done, born) && CutOut(ctx, k, x)
    requires forall c | c in s0 && c < |t.ext| && NeedsCut(ctx, k, t.ext[c]) :: c in done
    ensures x in Family(t.ext, s0 + born.Keys)
  {
    hide Apart, Moved, Intro;
    var z :| IsCut(ctx, k, z, x);
    assert HasExt(t.ext, s0, z);
    var c :| c in s0 && c < |t.ext| && t.ext[c] == z;
    assert NeedsCut(ctx, k, t.ext[c]);
    var n :| n in born && born[n] == c;
    assert t.ext[n] == x;
    hide IsCut;
  }

  /** The reduced extent of the new column: the objects it introduces from now on. */
  lemma ReducedIsColumn(ctx: Context, k: nat, t: Snap, s0: set<nat>, done: set<nat>, born: map<nat, nat>, red: set<nat>)
    requires ctx.Valid() && Sets(ctx, k, t, s0, done, born) && t.live == s0 + born.Keys
    requires forall c | c in s0 && c < |t.ext| :: t.ext[c] != ctx.cols[k] && (NeedsCut(ctx, k, t.ext[c]) ==> c in done)
    requires IsReduced(t.ext, MaxBelow(t.ext, t.live, ctx.cols[k]), ctx.cols[k], red)
    ensures red == Objs(ctx, k + 1, ctx.cols[k])
  {
    NotIntroduced(ctx, k, t, s0, done, born);
    FamilyIsInside(ctx, k, t, s0, done, born);
    assert t.live <= Range(|t.ext|);
    hide Sets, MaxBelow, NeedsCut, Intro, Objs, FamilyInside, IsReduced;
    forall o: nat ensures o in red <==> o in Objs(ctx, k + 1, ctx.cols[k]) {
      ReducedMeans(t.ext, t.live, ctx.cols[k], red, o);
      ReducedColumn(ctx, k, Family(t.ext, t.live), o);
    }
  }

  /** A column that no concept contains introduces no object. */
  lemma NoObjectsInside(ctx: Context, k: nat, t: Snap, s0: set<nat>, done: set<nat>, born: map<nat, nat>)
    requires ctx.Valid() && Sets(ctx, k, t, s0, done, born)
    requires forall c | c in s0 && c < |t.ext| :: !(ctx.cols[k] <= t.ext[c])
    ensures Objs(ctx, k + 1, ctx.cols[k]) == {}
  {
    NotIntroduced(ctx, k, t, s0, done, born);
    ColumnLabels(ctx, k);
    forall o: nat | o < |ctx.rows| ensures !(ctx.cols[k] <= ObjExt(ctx, k, o)) {
      assert ObjIntro(ctx, k, ObjExt(ctx, k, o));
      hide ObjExt;
      assert HasExt(t.ext, s0, ObjExt(ctx, k, o));
    }
  }

  // ---- ancestors ----

  lemma DrawnRow(ctx: Context, k: nat, t: Snap, done: set<nat>, p: nat, x: nat)
    requires k < |ctx.cols| && LiveHasse(t.ext, t.live, t.lower) && p <= |t.ext|
      && x in Drawn(ctx, k, t, done).lower[p] && x < |t.ext|
    ensures p < |t.ext| ==> x in t.live && p in t.live && t.ext[x] < t.ext[p]
    ensures p == |t.ext| ==> t.ext[x] < ctx.cols[k]
  {
    if p < |t.ext| { assert t.lower[p] == LowerOf(t.ext, t.live, p); }
  }

  /** In the half drawn order, what one meets above an upper neighbour of the column is what
      lies around it. */
  lemma AncestorsAre(ctx: Context, k: nat, t: Snap, done: set<nat>, upper: seq<set<nat>>, c: nat, p: nat)
    requires k < |ctx.cols| && LiveHasse(t.ext, t.live, t.lower) && Mirrored(Drawn(ctx, k, t, done).lower, upper)
    requires c in t.live && c < |t.ext| && ctx.cols[k] < t.ext[c]
    ensures Reach(upper, c, p) <==> p in UpSet(t, c)
  {
    hide Reached, MaxBelow;
    var lower := Drawn(ctx, k, t, done).lower;
    if Reach(upper, c, p) {
      forall y, z | y in UpSet(t, c) && z in upper[y] ensures z in UpSet(t, c) {
        assert y in lower[z];
        DrawnRow(ctx, k, t, done, z, y);
      }
      assert Closed(upper, UpSet(t, c));
    }
    if p in UpSet(t, c) && p != c {
      forall x, y | x in t.live && y in t.live && x < |upper| && t.ext[c] <= t.ext[x] && IsCover(t.ext, t.live, x, y)
        ensures y in upper[x] {
        StillDrawn(ctx, k, t, done, c, x, y);
        assert x in lower[y];
      }
      UpOnce(ctx, t, upper, c, p);
    }
  }

  lemma StillDrawn(ctx: Context, k: nat, t: Snap, done: set<nat>, c: nat, x: nat, y: nat)
    requires k < |ctx.cols| && LiveHasse(t.ext, t.live, t.lower) && c < |t.ext| && ctx.cols[k] < t.ext[c]
    requires x < |t.ext| && y < |t.ext| && t.ext[c] <= t.ext[x] && IsCover(t.ext, t.live, x, y)
    ensures x in Drawn(ctx, k, t, done).lower[y]
  {
    assert t.lower[y] == LowerOf(t.ext, t.live, y);
    if x in MaxBelow(t.ext, t.live, ctx.cols[k]) { BelowIsBelow(t.ext, t.live, ctx.cols[k], x); }
    hide MaxBelow, Reached, IsCover;
  }

  lemma UpOnce(ctx: Context, t: Snap, upper: seq<set<nat>>, c: nat, p: nat)
    requires LiveHasse(t.ext, t.live, t.lower) && |upper| == |t.ext| + 1 && c in t.live && p in t.live && p < |t.ext|
      && t.ext[c] < t.ext[p]
    requires forall x, y | x in t.live && y in t.live && x < |upper| && t.ext[c] <= t.ext[x]
      && IsCover(t.ext, t.live, x, y) :: y in upper[x]
    ensures Reach(upper, c, p)
  {
    UpAvoiding(t.ext, t.live, upper, |t.ext|, c, p);
  }
}
