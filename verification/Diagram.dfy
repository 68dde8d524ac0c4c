/** Hasse diagrams of families of extents.  A family is a sequence of extents indexed by
    concept number; `children[p]` holds the concepts drawn directly below concept p. */
module Diagram {
  import opened FiniteSets

  ghost predicate HasMeet(ext: seq<set<nat>>, x: set<nat>, y: set<nat>) {
    x * y in ext
  }

  ghost predicate MeetClosed(ext: seq<set<nat>>) {
    forall x: set<nat>, y: set<nat> {:trigger HasMeet(ext, x, y)} | x in ext && y in ext :: HasMeet(ext, x, y)
  }

  /** c is a lower cover of p. */
  ghost predicate CoveredBy(ext: seq<set<nat>>, c: nat, p: nat)
    requires c < |ext| && p < |ext|
  {
    ext[c] < ext[p] && forall k | 0 <= k < |ext| :: !(ext[c] < ext[k] < ext[p])
  }

  /** The edges are exactly the covering pairs. */
  ghost predicate Covers(ext: seq<set<nat>>, children: seq<set<nat>>) {
    && |children| == |ext|
    && (forall p | 0 <= p < |children| :: forall c | c in children[p] :: c < |ext|)
    && (forall c: nat, p: nat | c < |ext| && p < |ext| :: c in children[p] <==> CoveredBy(ext, c, p))
  }

  /** A family closed under intersection, without duplicates, and its covering edges. */
  ghost predicate LatticeDiagram(ext: seq<set<nat>>, children: seq<set<nat>>) {
    Distinct(ext) && MeetClosed(ext) && Covers(ext, children)
  }

  /** Below a larger extent there is always a cover on the way down to a smaller one. */
  lemma {:induction false} CoverAbove(ext: seq<set<nat>>, i: nat, p: nat) returns (c: nat)
    requires i < |ext| && p < |ext| && ext[i] < ext[p]
    ensures c < |ext| && CoveredBy(ext, c, p) && ext[i] <= ext[c]
    decreases ext[p] - ext[i]
  {
    if k: nat :| k < |ext| && ext[i] < ext[k] < ext[p] {
      assert ext[p] - ext[k] < ext[p] - ext[i] by {
        var x :| x in ext[k] && x !in ext[i];
        assert x in ext[p] - ext[i] && x !in ext[p] - ext[k];
      }
      c := CoverAbove(ext, k, p);
    } else {
      c := i;
    }
  }

  /** No child of g contains e. */
  ghost predicate Lowest(ext: seq<set<nat>>, children: seq<set<nat>>, e: set<nat>, g: nat)
    requires Covers(ext, children) && g < |ext|
  {
    e <= ext[g] && forall c | c in children[g] :: !(e <= ext[c])
  }

  /** Where the descent stops is the least extent around e. */
  lemma LowestIsLeast(ext: seq<set<nat>>, children: seq<set<nat>>, e: set<nat>, g: nat, x: set<nat>)
    requires LatticeDiagram(ext, children) && g < |ext| && Lowest(ext, children, e, g)
    requires x in ext && e <= x
    ensures ext[g] <= x
  {
    hide MeetClosed;
    var m := x * ext[g];
    if m != ext[g] {
      MeetIn(ext, x, ext[g]);
      var i: nat :| i < |ext| && ext[i] == m;
      var c := CoverAbove(ext, i, g);
    }
  }

  lemma MeetIn(ext: seq<set<nat>>, x: set<nat>, y: set<nat>)
    requires MeetClosed(ext) && x in ext && y in ext
    ensures x * y in ext
  {
    assert HasMeet(ext, x, y);
  }

  // ---- one insertion ----

  /** What an insertion of e must achieve: the family gains its intersections with e. */
  ghost predicate MeetsAdded(was: seq<set<nat>>, ext: seq<set<nat>>, e: set<nat>) {
    && was <= ext
    && (forall x: set<nat> | x in ext :: x in was || IsMeetWith(was, e, x))
    && (forall y: set<nat> | y in was :: e * y in ext)
  }

  ghost predicate IsMeetWith(was: seq<set<nat>>, e: set<nat>, x: set<nat>) {
    exists y: set<nat> :: y in was && x == e * y
  }

  lemma PrefixMember(a: seq<set<nat>>, b: seq<set<nat>>, x: set<nat>)
    requires a <= b && x in a
    ensures x in b
  {
    var i :| 0 <= i < |a| && a[i] == x;
    assert b[i] == x;
  }

  lemma MeetsAddedMeetClosed(was: seq<set<nat>>, ext: seq<set<nat>>, e: set<nat>)
    requires MeetClosed(was) && MeetsAdded(was, ext, e)
    ensures MeetClosed(ext)
  {
    forall x: set<nat>, y: set<nat> | x in ext && y in ext ensures x * y in ext {
      MeetOfMeets(was, ext, e, x, y);
    }
  }

  lemma MeetOfMeets(was: seq<set<nat>>, ext: seq<set<nat>>, e: set<nat>, x: set<nat>, y: set<nat>)
    requires MeetClosed(was) && MeetsAdded(was, ext, e) && x in ext && y in ext
    ensures x * y in ext
  {
    hide MeetClosed;
    var x0: set<nat> := if x in was then x else var v: set<nat> :| v in was && x == e * v; v;
    var y0: set<nat> := if y in was then y else var v: set<nat> :| v in was && y == e * v; v;
    MeetIn(was, x0, y0);
    if x in was && y in was {
      PrefixMember(was, ext, x * y);
    } else {
      assert x * y == e * (x0 * y0);
    }
  }

  /** x lies below one of the meets e * was[d], d in done. */
  ghost predicate BelowDone(was: seq<set<nat>>, e: set<nat>, done: seq<nat>, x: set<nat>)
    requires forall k | 0 <= k < |done| :: done[k] < |was|
  {
    exists k: nat :: k < |done| && IsMeetWith(was, e * was[done[k]], x)
  }

  /** While the children of the generator are being processed: the family has gained the
      intersections with e that lie below the children `done`. */
  ghost predicate MeetsBelow(was: seq<set<nat>>, ext: seq<set<nat>>, e: set<nat>, done: seq<nat>)
    requires forall k | 0 <= k < |done| :: done[k] < |was|
  {
    && was <= ext
    && (forall x: set<nat> | x in ext :: x in was || BelowDone(was, e, done, x))
    && (forall k | 0 <= k < |done| :: forall y: set<nat> | y in was :: e * was[done[k]] * y in ext)
  }

  lemma BelowDoneGrows(was: seq<set<nat>>, e: set<nat>, done: seq<nat>, d: nat, x: set<nat>)
    requires (forall k | 0 <= k < |done| :: done[k] < |was|) && d < |was|
    requires BelowDone(was, e, done, x) || IsMeetWith(was, e * was[d], x)
    ensures BelowDone(was, e, done + [d], x)
  {
    var done' := done + [d];
    if BelowDone(was, e, done, x) {
      var k: nat :| k < |done| && IsMeetWith(was, e * was[done[k]], x);
      assert done'[k] == done[k];
    } else {
      assert done'[|done|] == d;
    }
  }

  lemma BelowDoneMeet(was: seq<set<nat>>, e: set<nat>, done: seq<nat>, y: set<nat>, v: set<nat>)
    requires MeetClosed(was) && v in was && (forall k | 0 <= k < |done| :: done[k] < |was|)
    requires BelowDone(was, e, done, y)
    ensures BelowDone(was, e, done, e * v * y)
  {
    hide MeetClosed;
    var k: nat :| k < |done| && IsMeetWith(was, e * was[done[k]], y);
    var z: set<nat> :| z in was && y == e * was[done[k]] * z;
    MeetIn(was, v, z);
    assert e * v * y == e * was[done[k]] * (v * z);
    assert IsMeetWith(was, e * was[done[k]], e * v * y);
  }

  /** One recursive insertion, below the child d. */
  lemma MeetsBelowStep(was: seq<set<nat>>, mid: seq<set<nat>>, ext: seq<set<nat>>, e: set<nat>, done: seq<nat>, d: nat)
    requires MeetClosed(was) && (forall k | 0 <= k < |done| :: done[k] < |was|) && d < |was|
    requires MeetsBelow(was, mid, e, done) && MeetsAdded(mid, ext, e * was[d])
    ensures MeetsBelow(was, ext, e, done + [d])
  {
    hide MeetClosed;
    var done' := done + [d];
    forall x: set<nat> | x in ext && x !in was ensures BelowDone(was, e, done', x) {
      if x in mid {
        BelowDoneGrows(was, e, done, d, x);
      } else {
        var y: set<nat> :| y in mid && x == e * was[d] * y;
        if y in was {
          assert IsMeetWith(was, e * was[d], x);
        } else {
          BelowDoneMeet(was, e, done, y, was[d]);
        }
        BelowDoneGrows(was, e, done, d, x);
      }
    }
    forall k, y: set<nat> | 0 <= k < |done'| && y in was ensures e * was[done'[k]] * y in ext {
      if k < |done| {
        PrefixMember(mid, ext, e * was[done[k]] * y);
      } else {
        PrefixMember(was, mid, y);
      }
    }
  }

  lemma MeetsBelowStart(was: seq<set<nat>>, e: set<nat>)
    ensures MeetsBelow(was, was, e, [])
  {}

  // ---- the new concept ----

  /** The situation in which the concept e is created below the generator g: `done` are
      the children of g, `news` the maximal meets of e with them. */
  ghost predicate Insertion(was: seq<set<nat>>, childrenWas: seq<set<nat>>, mid: seq<set<nat>>, e: set<nat>, g: nat,
                            done: seq<nat>, news: seq<nat>)
  {
    && LatticeDiagram(was, childrenWas) && g < |was|
    && Lowest(was, childrenWas, e, g) && e != was[g]
    && (forall d :: d in done <==> d in childrenWas[g])
    && (forall k | 0 <= k < |done| :: done[k] < |was|)
    && MeetsBelow(was, mid, e, done)
    && Frontier(was, mid, e, done, news)
  }

  /** The concepts `news` are the maximal ones among the meets e * was[d], d in done. */
  ghost predicate Frontier(was: seq<set<nat>>, mid: seq<set<nat>>, e: set<nat>, done: seq<nat>, news: seq<nat>)
    requires forall k | 0 <= k < |done| :: done[k] < |was|
  {
    && (forall k | 0 <= k < |news| :: news[k] < |mid|)
    && (forall k | 0 <= k < |news| :: FromMeet(was, e, done, mid[news[k]]))
    && (forall j | 0 <= j < |done| :: Dominated(mid, news, e * was[done[j]]))
    && (forall j, k | 0 <= j < |news| && 0 <= k < |news| && j != k :: !(mid[news[j]] <= mid[news[k]]))
  }

  ghost predicate FromMeet(was: seq<set<nat>>, e: set<nat>, done: seq<nat>, x: set<nat>)
    requires forall k | 0 <= k < |done| :: done[k] < |was|
  {
    exists j :: 0 <= j < |done| && x == e * was[done[j]]
  }

  ghost predicate Dominated(ext: seq<set<nat>>, news: seq<nat>, x: set<nat>)
    requires forall k | 0 <= k < |news| :: news[k] < |ext|
  {
    exists k :: 0 <= k < |news| && x <= ext[news[k]]
  }

  lemma NotBelowChildren(was: seq<set<nat>>, childrenWas: seq<set<nat>>, mid: seq<set<nat>>, e: set<nat>, g: nat,
                         done: seq<nat>, news: seq<nat>, x: set<nat>)
    requires Insertion(was, childrenWas, mid, e, g, done, news)
    requires BelowDone(was, e, done, x)
    ensures x < e && Dominated(mid, news, x)
  {
    hide MeetClosed;
    var k: nat :| k < |done| && IsMeetWith(was, e * was[done[k]], x);
    assert done[k] in childrenWas[g] && !(e <= was[done[k]]);
    assert Dominated(mid, news, e * was[done[k]]);
    var j :| 0 <= j < |news| && e * was[done[k]] <= mid[news[j]];
    assert x <= mid[news[j]];
  }

  /** Extents around e are old ones, around the extent of the generator. */
  lemma AroundIsAboveGenerator(was: seq<set<nat>>, childrenWas: seq<set<nat>>, mid: seq<set<nat>>, e: set<nat>, g: nat,
                               done: seq<nat>, news: seq<nat>, x: set<nat>)
    requires Insertion(was, childrenWas, mid, e, g, done, news)
    requires x in mid && e <= x
    ensures was[g] <= x && e < x
  {
    hide MeetClosed;
    if x !in was {
      NotBelowChildren(was, childrenWas, mid, e, g, done, news, x);
      assert false;
    }
    LowestIsLeast(was, childrenWas, e, g, x);
  }

  /** Extents strictly inside e lie below the frontier. */
  lemma InsideIsDominated(was: seq<set<nat>>, childrenWas: seq<set<nat>>, mid: seq<set<nat>>, e: set<nat>, g: nat,
                          done: seq<nat>, news: seq<nat>, x: set<nat>)
    requires Insertion(was, childrenWas, mid, e, g, done, news)
    requires x in mid && x < e
    ensures Dominated(mid, news, x)
  {
    hide MeetClosed;
    if x in was {
      var i: nat :| i < |was| && was[i] == x;
      var c := CoverAbove(was, i, g);
      assert c in childrenWas[g] && c in done;
      var j :| 0 <= j < |done| && done[j] == c;
      assert Dominated(mid, news, e * was[done[j]]);
      var k :| 0 <= k < |news| && e * was[done[j]] <= mid[news[k]];
      assert x <= mid[news[k]];
    } else {
      NotBelowChildren(was, childrenWas, mid, e, g, done, news, x);
    }
  }

  lemma FrontierInside(was: seq<set<nat>>, childrenWas: seq<set<nat>>, mid: seq<set<nat>>, e: set<nat>, g: nat,
                       done: seq<nat>, news: seq<nat>, k: nat)
    requires Insertion(was, childrenWas, mid, e, g, done, news) && k < |news|
    ensures mid[news[k]] < e
  {
    hide MeetClosed;
    assert FromMeet(was, e, done, mid[news[k]]);
    var j :| 0 <= j < |done| && mid[news[k]] == e * was[done[j]];
    assert done[j] in childrenWas[g];
  }

  lemma InsertionShape(was: seq<set<nat>>, childrenWas: seq<set<nat>>, mid: seq<set<nat>>, e: set<nat>, g: nat,
                       done: seq<nat>, news: seq<nat>)
    requires Insertion(was, childrenWas, mid, e, g, done, news)
    ensures g < |was| <= |mid| && mid[g] == was[g] && e < mid[g]
    ensures forall k | 0 <= k < |news| :: news[k] < |mid|
    ensures forall j, k | 0 <= j < |news| && 0 <= k < |news| && j != k :: !(mid[news[j]] <= mid[news[k]])
  {}

  /** Below e, every member of the family before the insertion comes from a child. */
  lemma MeetIsThere(was: seq<set<nat>>, childrenWas: seq<set<nat>>, mid: seq<set<nat>>, e: set<nat>, g: nat,
                    done: seq<nat>, news: seq<nat>, y: set<nat>)
    requires Insertion(was, childrenWas, mid, e, g, done, news) && y in was
    ensures e * y == e || e * y in mid
  {
    hide MeetClosed;
    var w := y * was[g];
    MeetIn(was, y, was[g]);
    assert e * y == e * w;
    if w != was[g] {
      var i: nat :| i < |was| && was[i] == w;
      var c := CoverAbove(was, i, g);
      assert c in childrenWas[g] && c in done;
      var j :| 0 <= j < |done| && done[j] == c;
      assert e * was[done[j]] * w in mid;
      assert e * was[done[j]] * w == e * w;
    }
  }

  lemma BelowDoneIsMeet(was: seq<set<nat>>, e: set<nat>, done: seq<nat>, x: set<nat>)
    requires MeetClosed(was) && (forall k | 0 <= k < |done| :: done[k] < |was|) && BelowDone(was, e, done, x)
    ensures IsMeetWith(was, e, x)
  {
    hide MeetClosed;
    var k: nat :| k < |done| && IsMeetWith(was, e * was[done[k]], x);
    var z: set<nat> :| z in was && x == e * was[done[k]] * z;
    MeetIn(was, was[done[k]], z);
    assert x == e * (was[done[k]] * z);
  }

  /** The family after the insertion of e. */
  lemma InsertionFamily(was: seq<set<nat>>, childrenWas: seq<set<nat>>, mid: seq<set<nat>>, e: set<nat>, g: nat,
                        done: seq<nat>, news: seq<nat>)
    requires Insertion(was, childrenWas, mid, e, g, done, news)
    ensures e !in mid && MeetsAdded(was, mid + [e], e)
  {
    hide MeetClosed;
    var ext := mid + [e];
    if e in mid { AroundIsAboveGenerator(was, childrenWas, mid, e, g, done, news, e); }
    forall x: set<nat> | x in ext && x !in was ensures IsMeetWith(was, e, x) {
      if x == e {
        assert was[g] in was && x == e * was[g];
      } else {
        assert x in mid;
        BelowDoneIsMeet(was, e, done, x);
      }
    }
    forall y: set<nat> | y in was ensures e * y in ext {
      MeetIsThere(was, childrenWas, mid, e, g, done, news, y);
      assert ext[|mid|] == e;
    }
  }

  /** The edges after the rewiring: the frontier moves from the generator to the new
      concept, which becomes a child of the generator. */
  ghost function Rewired(children: seq<set<nat>>, g: nat, news: seq<nat>): seq<set<nat>>
    requires g < |children|
  {
    children[g := children[g] - ToSet(news) + {|children|}] + [ToSet(news)]
  }

  /** Where the new concept e fits: right below g, right above the concepts `news`. */
  ghost predicate Slot(mid: seq<set<nat>>, e: set<nat>, g: nat, news: seq<nat>) {
    && g < |mid| && e < mid[g]
    && (forall k | 0 <= k < |mid| && e <= mid[k] :: mid[g] <= mid[k])
    && (forall k | 0 <= k < |news| :: news[k] < |mid| && mid[news[k]] < e)
    && (forall k | 0 <= k < |mid| && mid[k] < e :: Dominated(mid, news, mid[k]))
    && (forall j, k | 0 <= j < |news| && 0 <= k < |news| && j != k :: !(mid[news[j]] <= mid[news[k]]))
  }

  lemma SlotOfInsertion(was: seq<set<nat>>, childrenWas: seq<set<nat>>, mid: seq<set<nat>>, e: set<nat>, g: nat,
                        done: seq<nat>, news: seq<nat>)
    requires Insertion(was, childrenWas, mid, e, g, done, news)
    ensures Slot(mid, e, g, news)
  {
    InsertionShape(was, childrenWas, mid, e, g, done, news);
    hide Insertion;
    forall k | 0 <= k < |mid| && e <= mid[k] ensures mid[g] <= mid[k] {
      AroundIsAboveGenerator(was, childrenWas, mid, e, g, done, news, mid[k]);
    }
    forall k | 0 <= k < |news| ensures mid[news[k]] < e {
      FrontierInside(was, childrenWas, mid, e, g, done, news, k);
    }
    forall k | 0 <= k < |mid| && mid[k] < e ensures Dominated(mid, news, mid[k]) {
      InsideIsDominated(was, childrenWas, mid, e, g, done, news, mid[k]);
    }
  }

  /** Edges into the new concept. */
  lemma CoversOfNew(mid: seq<set<nat>>, e: set<nat>, g: nat, news: seq<nat>, c: nat)
    requires Slot(mid, e, g, news) && Distinct(mid) && c < |mid|
    ensures c in news <==> CoveredBy(mid + [e], c, |mid|)
  {
    var ext := mid + [e];
    assert ext[|mid|] == e && forall k | 0 <= k < |mid| :: ext[k] == mid[k];
    if c in news {
      var k :| 0 <= k < |news| && news[k] == c;
      forall m | 0 <= m < |mid| ensures !(mid[c] < mid[m] < e) {
        NothingBetween(mid, e, g, news, k, m);
      }
    } else if mid[c] < e {
      var j :| 0 <= j < |news| && mid[c] <= mid[news[j]];
      assert mid[c] != mid[news[j]];
      assert ext[c] < ext[news[j]] < ext[|mid|];
    }
  }

  lemma NothingBetween(mid: seq<set<nat>>, e: set<nat>, g: nat, news: seq<nat>, k: nat, m: nat)
    requires Slot(mid, e, g, news) && k < |news| && m < |mid|
    ensures !(mid[news[k]] < mid[m] < e)
  {
    if mid[m] < e {
      var j :| 0 <= j < |news| && mid[m] <= mid[news[j]];
      assert mid[news[k]] <= mid[m] ==> j == k;
    }
  }

  /** Edges out of the new concept. */
  lemma CoverOverNew(mid: seq<set<nat>>, e: set<nat>, g: nat, news: seq<nat>, p: nat)
    requires Slot(mid, e, g, news) && Distinct(mid) && p < |mid|
    ensures p == g <==> CoveredBy(mid + [e], |mid|, p)
  {
    var ext := mid + [e];
    assert ext[|mid|] == e && forall k | 0 <= k < |mid| :: ext[k] == mid[k];
    if p != g && e < mid[p] {
      assert mid[g] != mid[p];
      assert ext[|mid|] < ext[g] < ext[p];
    }
  }

  /** Edges between other concepts. */
  lemma CoversBesideNew(mid: seq<set<nat>>, e: set<nat>, g: nat, news: seq<nat>, c: nat, p: nat)
    requires Slot(mid, e, g, news) && Distinct(mid) && c < |mid| && p < |mid|
    ensures CoveredBy(mid + [e], c, p) <==> CoveredBy(mid, c, p) && !(p == g && c in news)
  {
    var ext := mid + [e];
    assert ext[|mid|] == e && forall k | 0 <= k < |mid| :: ext[k] == mid[k];
    if CoveredBy(mid, c, p) && mid[c] < e < mid[p] {
      CoverAroundNew(mid, e, g, news, c, p);
    }
  }

  lemma CoverAroundNew(mid: seq<set<nat>>, e: set<nat>, g: nat, news: seq<nat>, c: nat, p: nat)
    requires Slot(mid, e, g, news) && Distinct(mid) && c < |mid| && p < |mid|
    requires CoveredBy(mid, c, p) && mid[c] < e < mid[p]
    ensures p == g && c in news
  {
    assert !(mid[c] < mid[g] < mid[p]);
    var j :| 0 <= j < |news| && mid[c] <= mid[news[j]];
    assert mid[news[j]] < mid[p];
    assert mid[g] == mid[p] && mid[c] == mid[news[j]];
  }

  /** The insertion of e keeps the diagram a lattice diagram. */
  lemma InsertionCorrect(was: seq<set<nat>>, childrenWas: seq<set<nat>>, mid: seq<set<nat>>, children: seq<set<nat>>,
                         e: set<nat>, g: nat, done: seq<nat>, news: seq<nat>)
    requires Insertion(was, childrenWas, mid, e, g, done, news) && LatticeDiagram(mid, children)
    ensures MeetsAdded(was, mid + [e], e) && LatticeDiagram(mid + [e], Rewired(children, g, news))
  {
    InsertionFamily(was, childrenWas, mid, e, g, done, news);
    SlotOfInsertion(was, childrenWas, mid, e, g, done, news);
    MeetsAddedMeetClosed(was, mid + [e], e);
    CoversAfter(mid, children, e, g, news);
  }

  lemma CoversAfter(mid: seq<set<nat>>, children: seq<set<nat>>, e: set<nat>, g: nat, news: seq<nat>)
    requires Slot(mid, e, g, news) && Distinct(mid) && e !in mid && Covers(mid, children)
    ensures Distinct(mid + [e]) && Covers(mid + [e], Rewired(children, g, news))
  {
    var ext, children' := mid + [e], Rewired(children, g, news);
    forall c: nat, p: nat | c < |ext| && p < |ext| ensures c in children'[p] <==> CoveredBy(ext, c, p) {
      if p == |mid| {
        if c < |mid| { CoversOfNew(mid, e, g, news, c); }
      } else if c == |mid| {
        CoverOverNew(mid, e, g, news, p);
      } else {
        CoversBesideNew(mid, e, g, news, c, p);
      }
    }
  }
}
