/** From what the workers recorded to the labelled concept lattice: concept numbers, covers,
    reduced intents and reduced extents. */
module LatticeCbo {
  import opened FiniteSets
  import opened FormalContext
  import opened Diagram
  import opened Lattice
  import opened CloseByOne
  import opened JobQueue
  import opened ExtentMap
  import opened LowerCovers
  import Derivation

  // ---- all concepts, the top first ----

  /** The workers' vectors, one after the other. */
  ghost function Outs(workers: seq<Worker>): seq<seq<Found>> {
    seq(|workers|, w requires 0 <= w < |workers| => workers[w].out)
  }

  ghost function Total(outs: seq<seq<Found>>, x: set<nat>): nat {
    if outs == [] then 0 else Total(outs[..|outs| - 1], x) + CountOf(outs[|outs| - 1], x)
  }

  /** Every closed set but the top was recorded once, with its intent. */
  ghost predicate Complete(ctx: Context, outs: seq<seq<Found>>) {
    && (forall x: set<nat> :: Total(outs, x) == if IsClosed(ctx, x) && x != ctx.Objects() then 1 else 0)
    && forall w | 0 <= w < |outs| :: forall i | 0 <= i < |outs[w]| :: outs[w][i].intent == ctx.Intent(outs[w][i].extent)
  }

  lemma {:induction false} TotalIsSum(workers: seq<Worker>, x: set<nat>)
    ensures Total(Outs(workers), x) == Sum(workers, (worker: Worker) => CountOf(worker.out, x))
  {
    if workers != [] {
      TotalIsSum(workers[..|workers| - 1], x);
      assert Outs(workers)[..|workers| - 1] == Outs(workers[..|workers| - 1]);
      SumSame(workers[..|workers| - 1], (worker: Worker) => CountOf(worker.out, x),
              (worker: Worker) => CountOf(worker.out, x));
      SumUnfold(workers, (worker: Worker) => CountOf(worker.out, x));
    }
  }

  lemma SumUnfold(workers: seq<Worker>, f: Worker -> nat)
    requires workers != []
    ensures Sum(workers, f) == Sum(workers[..|workers| - 1], f) + f(workers[|workers| - 1])
  {}

  /** Every run of the workers ends with complete vectors. */
  lemma RunIsComplete(ctx: Context, states: seq<State>, steps: seq<Step>)
    requires ctx.Valid() && IsRun(ctx, states, steps) && AllFinished(states[|steps|])
    ensures Complete(ctx, Outs(states[|steps|].workers))
  {
    EachClosedSetOnce(ctx, states, steps);
    var s := states[|steps|];
    forall x: set<nat> ensures Total(Outs(s.workers), x) == Recorded(s, x) {
      TotalIsSum(s.workers, x);
    }
  }

  /** Exactly the closed sets, each once, with their intents. */
  ghost predicate AllConcepts(ctx: Context, extents: seq<set<nat>>, intents: seq<set<nat>>) {
    && |extents| == |intents| && Distinct(extents) && (forall x :: x in extents <==> IsClosed(ctx, x))
    && forall c | 0 <= c < |extents| :: intents[c] == ctx.Intent(extents[c])
  }

  ghost function Extents(found: seq<Found>): (r: seq<set<nat>>)
    ensures |r| == |found| && forall i | 0 <= i < |r| :: r[i] == found[i].extent
  {
    seq(|found|, i requires 0 <= i < |found| => found[i].extent)
  }

  lemma {:induction false} CountIsMember(found: seq<Found>, x: set<nat>)
    ensures CountOf(found, x) > 0 <==> x in Extents(found)
    decreases |found|
  {
    if found != [] {
      CountIsMember(found[..|found| - 1], x);
      assert Extents(found) == Extents(found[..|found| - 1]) + [found[|found| - 1].extent];
    }
  }

  lemma {:induction false} CountOnce(found: seq<Found>, i: nat, j: nat)
    requires i < j < |found| && found[i].extent == found[j].extent
    ensures CountOf(found, found[i].extent) >= 2
    decreases |found|
  {
    var rest := found[..|found| - 1];
    if j < |rest| {
      CountOnce(rest, i, j);
    } else {
      assert Extents(rest)[i] == found[i].extent;
      CountIsMember(rest, found[i].extent);
    }
  }

  lemma {:induction false} CountConcat(a: seq<Found>, b: seq<Found>, x: set<nat>)
    ensures CountOf(a + b, x) == CountOf(a, x) + CountOf(b, x)
    decreases |b|
  {
    if b == [] {
      assert a + b == a;
    } else {
      assert (a + b)[..|a + b| - 1] == a + b[..|b| - 1];
      CountConcat(a, b[..|b| - 1], x);
    }
  }

  method Concatenate(ctx: Context, outs: seq<seq<Found>>) returns (extents: seq<set<nat>>, intents: seq<set<nat>>)
    requires ctx.Valid() && Complete(ctx, outs)
    ensures AllConcepts(ctx, extents, intents) && |extents| > 0 && extents[0] == ctx.Objects()
  {
    hide IsClosed, Context.Valid;
    var intent0 := Derivation.ComputeIntent(ctx, ctx.Objects());
    var all := [Found(ctx.Objects(), intent0)];
    ghost var outs0 := outs[..0];
    for w := 0 to |outs|
      invariant |all| > 0 && all[0] == Found(ctx.Objects(), intent0)
      invariant forall x: set<nat> :: CountOf(all, x) == Total(outs[..w], x) + CountOf([all[0]], x)
      invariant forall i | 0 <= i < |all| :: all[i].intent == ctx.Intent(all[i].extent)
    {
      assert outs[..w + 1][..w] == outs[..w];
      forall x: set<nat> ensures CountOf(all + outs[w], x) == Total(outs[..w + 1], x) + CountOf([all[0]], x) {
        CountConcat(all, outs[w], x);
      }
      all := all + outs[w];
    }
    assert outs[..|outs|] == outs;
    EachOnce(ctx, all, outs);
    extents := seq(|all|, i requires 0 <= i < |all| => all[i].extent);
    intents := seq(|all|, i requires 0 <= i < |all| => all[i].intent);
    assert extents == Extents(all);
  }

  lemma EachOnce(ctx: Context, all: seq<Found>, outs: seq<seq<Found>>)
    requires ctx.Valid() && Complete(ctx, outs) && |all| > 0 && all[0].extent == ctx.Objects()
    requires forall x: set<nat> :: CountOf(all, x) == Total(outs, x) + CountOf([all[0]], x)
    ensures Distinct(Extents(all)) && forall x :: x in Extents(all) <==> IsClosed(ctx, x)
  {
    RootOk(ctx);
    hide IsClosed;
    forall x: set<nat> ensures CountOf(all, x) == if IsClosed(ctx, x) then 1 else 0 {
      assert [all[0]][..0] == [];
      assert CountOf([all[0]], x) == if x == ctx.Objects() then 1 else 0;
    }
    forall x ensures x in Extents(all) <==> IsClosed(ctx, x) {
      CountIsMember(all, x);
    }
    forall i, j | 0 <= i < j < |all| ensures Extents(all)[i] != Extents(all)[j] {
      if all[i].extent == all[j].extent { CountOnce(all, i, j); }
    }
  }

  // ---- numbers ----

  /** The table knows the first n extents. */
  ghost predicate Numbered(extents: seq<set<nat>>, content: map<set<nat>, nat>, n: nat)
    requires n <= |extents|
  {
    && (forall c | 0 <= c < n :: extents[c] in content && content[extents[c]] == c)
    && forall x | x in content :: content[x] < n && extents[content[x]] == x
  }

  method NumberExtents(extents: seq<set<nat>>, hash: set<nat> -> nat) returns (table: WMap)
    requires Distinct(extents)
    ensures fresh(table) && table.Valid() && Numbered(extents, table.content, |extents|)
  {
    table := new WMap(|extents|, hash);
    for c := 0 to |extents|
      invariant fresh(table) && table.Valid() && Numbered(extents, table.content, c)
    {
      table.Put(extents[c], c);
    }
  }

  // ---- covers ----

  /** A concept is a lower cover exactly when its extent is one among all closed sets. */
  lemma CoverInFamily(ctx: Context, extents: seq<set<nat>>, intents: seq<set<nat>>, i: nat, p: nat)
    requires AllConcepts(ctx, extents, intents) && i < |extents| && p < |extents|
    ensures CoveredBy(extents, i, p) <==> IsLowerCover(ctx, extents[p], extents[i])
  {
    hide IsClosed;
    assert extents[i] in extents;
    if CoveredBy(extents, i, p) {
      forall y: set<nat> | IsClosed(ctx, y) ensures !(extents[i] < y < extents[p]) {
        assert y in extents;
        var k :| 0 <= k < |extents| && extents[k] == y;
      }
    }
    if IsLowerCover(ctx, extents[p], extents[i]) {
      forall k | 0 <= k < |extents| ensures !(extents[i] < extents[k] < extents[p]) {
        assert extents[k] in extents;
      }
    }
  }

  /** children[p] lists the lower covers of p, each once. */
  ghost predicate ListsCovers(extents: seq<set<nat>>, children: seq<nat>, p: nat)
    requires p < |extents|
  {
    NoRepeats(children) && forall i: nat :: i in children <==> i < |extents| && CoveredBy(extents, i, p)
  }

  /** Looks up the numbers of the lower covers of every concept. */
  method CoverAll(ctx: Context, extents: seq<set<nat>>, intents: seq<set<nat>>, irr: seq<nat>, table: WMap)
      returns (children: seq<seq<nat>>)
    requires ctx.Valid() && AllConcepts(ctx, extents, intents) && table.Valid()
      && Numbered(extents, table.content, |extents|)
    requires Derivation.Sorted(Irreducibles(ctx, |ctx.cols|), irr)
    ensures |children| == |extents| && forall p | 0 <= p < |extents| :: ListsCovers(extents, children[p], p)
  {
    hide IsClosed, IsLowerCover, CoveredBy, Irreducible, Numbered, ListsCovers;
    children := [];
    var head := new int[|ctx.rows| + 1](c => -1);
    for p := 0 to |extents|
      invariant AllEmpty(head[..]) && |children| == p && table.Valid() && Numbered(extents, table.content, |extents|)
      invariant forall q | 0 <= q < p :: ListsCovers(extents, children[q], q)
    {
      assert extents[p] in extents;
      var covers := LowerCoversOf(ctx, extents[p], intents[p], irr, head);
      forall x | x in covers ensures x in extents && x != extents[p] {
        CoverIsConcept(ctx, extents, intents, p, x);
      }
      var ids := LookUp(extents, p, covers, table);
      IdsListCovers(ctx, extents, intents, p, covers, ids);
      children := children + [ids];
    }
  }

  method LookUp(extents: seq<set<nat>>, p: nat, covers: seq<set<nat>>, table: WMap) returns (ids: seq<nat>)
    requires table.Valid() && Numbered(extents, table.content, |extents|) && p < |extents|
    requires forall x | x in covers :: x in extents && x != extents[p]
    ensures |ids| == |covers| && forall j | 0 <= j < |ids| :: ids[j] < |extents| && extents[ids[j]] == covers[j]
  {
    hide WMap.Valid, ChainOk, Lookup;
    ids := [];
    for k := 0 to |covers|
      invariant |ids| == k && forall j | 0 <= j < k :: ids[j] < |extents| && extents[ids[j]] == covers[j]
    {
      assert covers[k] in covers;
      var id := table.Get(covers[k]);
      if id >= 0 && id != p {
        ids := ids + [id];
      }
    }
  }

  lemma CoverIsConcept(ctx: Context, extents: seq<set<nat>>, intents: seq<set<nat>>, p: nat, x: set<nat>)
    requires AllConcepts(ctx, extents, intents) && p < |extents| && IsLowerCover(ctx, extents[p], x)
    ensures x in extents && x != extents[p]
  {
    hide IsClosed;
  }

  lemma IdsListCovers(ctx: Context, extents: seq<set<nat>>, intents: seq<set<nat>>, p: nat, covers: seq<set<nat>>,
                      ids: seq<nat>)
    requires AllConcepts(ctx, extents, intents) && p < |extents| && |ids| == |covers|
    requires Distinct(covers) && forall x :: x in covers <==> IsLowerCover(ctx, extents[p], x)
    requires forall j | 0 <= j < |ids| :: ids[j] < |extents| && extents[ids[j]] == covers[j]
    ensures ListsCovers(extents, ids, p)
  {
    hide IsClosed, IsLowerCover, CoveredBy;
    forall i: nat ensures i in ids <==> i < |extents| && CoveredBy(extents, i, p) {
      if i < |extents| { CoverInFamily(ctx, extents, intents, i, p); }
      if i in ids {
        var j :| 0 <= j < |ids| && ids[j] == i;
        assert covers[j] in covers;
      }
      if i < |extents| && CoveredBy(extents, i, p) {
        assert extents[i] in covers;
        var j :| 0 <= j < |covers| && covers[j] == extents[i];
        assert extents[ids[j]] == extents[i];
      }
    }
  }

  ghost function AsSets(lists: seq<seq<nat>>): (r: seq<set<nat>>)
    ensures |r| == |lists| && forall i | 0 <= i < |r| :: r[i] == ToSet(lists[i])
  {
    seq(|lists|, i requires 0 <= i < |lists| => ToSet(lists[i]))
  }

  /** The same lattice as the one the incremental insertion builds. */
  lemma IsTheLattice(ctx: Context, extents: seq<set<nat>>, intents: seq<set<nat>>, children: seq<seq<nat>>)
    requires ctx.Valid() && AllConcepts(ctx, extents, intents)
    requires |children| == |extents| && forall p | 0 <= p < |extents| :: ListsCovers(extents, children[p], p)
    ensures IsConceptLattice(ctx, extents, AsSets(children))
  {
    CoversFromLists(extents, children);
    hide Diagram.Covers, ListsCovers;
    forall x: set<nat>, y: set<nat> | x in extents && y in extents ensures x * y in extents {
      MeetIsClosed(ctx, x, y);
    }
    forall s: set<nat> | s <= Range(|ctx.cols|) ensures ctx.Extent(s) in extents {
      ExtentIsClosed(ctx, s);
    }
    forall x: set<nat> | x in extents ensures exists s: set<nat> :: s <= Range(|ctx.cols|) && x == ctx.Extent(s) {
      assert IsClosed(ctx, x);
      assert ctx.Intent(x) <= Range(|ctx.cols|);
    }
  }

  lemma CoversFromLists(extents: seq<set<nat>>, children: seq<seq<nat>>)
    requires |children| == |extents| && forall p | 0 <= p < |extents| :: ListsCovers(extents, children[p], p)
    ensures Diagram.Covers(extents, AsSets(children))
  {
    hide CoveredBy;
  }

  lemma ExtentIsClosed(ctx: Context, s: set<nat>)
    requires ctx.Valid() && s <= ctx.Attributes()
    ensures IsClosed(ctx, ctx.Extent(s))
  {
    ClosureIdempotent(ctx, s);
  }

  lemma MeetIsClosed(ctx: Context, x: set<nat>, y: set<nat>)
    requires ctx.Valid() && IsClosed(ctx, x) && IsClosed(ctx, y)
    ensures IsClosed(ctx, x * y)
  {
    var s := ctx.Intent(x) + ctx.Intent(y);
    assert ctx.Extent(s) == ctx.Extent(ctx.Intent(x)) * ctx.Extent(ctx.Intent(y));
    ExtentIsClosed(ctx, s);
  }

  // ---- labels ----

  lemma ColumnIsClosed(ctx: Context, a: nat)
    requires ctx.Valid() && a < |ctx.cols|
    ensures IsClosed(ctx, ctx.cols[a])
  {
    assert ctx.Extent({a}) == ctx.cols[a];
    ExtentIsClosed(ctx, {a});
  }

  /** Each attribute goes to the concept whose extent is its column. */
  method ReducedIntents(ctx: Context, extents: seq<set<nat>>, intents: seq<set<nat>>, table: WMap)
      returns (rintents: seq<seq<nat>>)
    requires ctx.Valid() && AllConcepts(ctx, extents, intents) && table.Valid()
      && Numbered(extents, table.content, |extents|)
    ensures |rintents| == |extents| && ColumnLabels(ctx, |ctx.cols|, extents, AsSets(rintents))
    ensures forall c | 0 <= c < |rintents| :: NoRepeats(rintents[c])
  {
    hide IsClosed;
    rintents := seq(|extents|, c => []);
    for a := 0 to |ctx.cols|
      invariant |rintents| == |extents| && ColumnLabels(ctx, a, extents, AsSets(rintents))
      invariant forall c | 0 <= c < |rintents| :: NoRepeats(rintents[c])
    {
      ColumnIsClosed(ctx, a);
      assert ctx.cols[a] in extents;
      var id := table.Get(ctx.cols[a]);
      LabelStep(ctx, extents, rintents, a, id);
      rintents := rintents[id := rintents[id] + [a]];
    }
  }

  lemma LabelStep(ctx: Context, extents: seq<set<nat>>, rintents: seq<seq<nat>>, a: nat, id: nat)
    requires |rintents| == |extents| && a < |ctx.cols| && ColumnLabels(ctx, a, extents, AsSets(rintents))
      && Distinct(extents)
    requires id < |extents| && extents[id] == ctx.cols[a] && forall c | 0 <= c < |rintents| :: NoRepeats(rintents[c])
    ensures var r := rintents[id := rintents[id] + [a]];
      ColumnLabels(ctx, a + 1, extents, AsSets(r)) && forall c | 0 <= c < |r| :: NoRepeats(r[c])
  {
    var r := rintents[id := rintents[id] + [a]];
    forall c: nat, b: nat | c < |extents| ensures b in r[c] <==> b < a + 1 && ctx.cols[b] == extents[c] {
      assert b in AsSets(rintents)[c] <==> b < a && ctx.cols[b] == extents[c];
      assert b in r[c] <==> b in rintents[c] || (c == id && b == a);
    }
    forall c | 0 <= c < |r| ensures NoRepeats(r[c]) {
      if c == id {
        assert a !in AsSets(rintents)[id];
        forall k | 0 <= k < |rintents[id]| ensures rintents[id][k] != a {
          assert rintents[id][k] in AsSets(rintents)[id];
        }
      }
    }
  }

  /** The pairs (concept, object) such that no concept below holds the object. */
  ghost predicate ReducedPairs(extents: seq<set<nat>>, children: seq<set<nat>>, pairs: seq<(nat, nat)>, n: nat)
    requires Diagram.Covers(extents, children) && n <= |extents|
  {
    && (forall k | 0 <= k < |pairs| :: pairs[k].0 < n && InReduced(extents, children, pairs[k].0, pairs[k].1))
    && (forall c: nat, o: nat | c < n && InReduced(extents, children, c, o) :: (c, o) in pairs)
    && forall k, l | 0 <= k < l < |pairs| :: pairs[k] != pairs[l]
  }

  ghost predicate InReduced(extents: seq<set<nat>>, children: seq<set<nat>>, c: nat, o: nat)
    requires Diagram.Covers(extents, children) && c < |extents|
  {
    o in extents[c] && forall d | d in children[c] :: o !in extents[d]
  }

  method ComputeReducedPairs(extents: seq<set<nat>>, children: seq<seq<nat>>, n: nat) returns (pairs: seq<(nat, nat)>)
    requires Diagram.Covers(extents, AsSets(children))
      && forall c | 0 <= c < |extents| :: forall o | o in extents[c] :: o < n
    ensures ReducedPairs(extents, AsSets(children), pairs, |extents|)
  {
    hide Diagram.Covers;
    CoversInRange(extents, children);
    pairs := [];
    for c := 0 to |extents|
      invariant ReducedPairs(extents, AsSets(children), pairs, c)
    {
      var re := extents[c];
      for k := 0 to |children[c]|
        invariant forall o :: o in re <==> o in extents[c] && forall j | 0 <= j < k :: o !in extents[children[c][j]]
      {
        re := re - extents[children[c][k]];
      }
      forall o: nat ensures o in re <==> InReduced(extents, AsSets(children), c, o) {
        assert forall d :: d in AsSets(children)[c] <==> d in children[c];
        if o in re {
          forall d | d in children[c] ensures o !in extents[d] {
            var j :| 0 <= j < |children[c]| && children[c][j] == d;
          }
        }
      }
      var objects := Derivation.Elements(re, n);
      var more := seq(|objects|, k requires 0 <= k < |objects| => (c, objects[k]));
      MorePairs(extents, AsSets(children), pairs, c, re, objects, more);
      pairs := pairs + more;
    }
  }

  lemma CoversInRange(extents: seq<set<nat>>, children: seq<seq<nat>>)
    requires Diagram.Covers(extents, AsSets(children))
    ensures |children| == |extents|
    ensures forall c, k | 0 <= c < |children| && 0 <= k < |children[c]| :: children[c][k] < |extents|
  {
    forall c, k | 0 <= c < |children| && 0 <= k < |children[c]| ensures children[c][k] < |extents| {
      assert children[c][k] in AsSets(children)[c];
    }
  }

  lemma MorePairs(extents: seq<set<nat>>, children: seq<set<nat>>, pairs: seq<(nat, nat)>, c: nat, re: set<nat>,
                  objects: seq<nat>, more: seq<(nat, nat)>)
    requires Diagram.Covers(extents, children) && c < |extents| && ReducedPairs(extents, children, pairs, c)
    requires (forall o: nat :: o in re <==> InReduced(extents, children, c, o)) && Derivation.Sorted(re, objects)
    requires |more| == |objects| && forall k | 0 <= k < |more| :: more[k] == (c, objects[k])
    ensures ReducedPairs(extents, children, pairs + more, c + 1)
  {
    hide Diagram.Covers, InReduced;
    var all := pairs + more;
    forall k | 0 <= k < |all| ensures all[k].0 < c + 1 && InReduced(extents, children, all[k].0, all[k].1) {
      if k >= |pairs| { assert objects[k - |pairs|] in objects; }
    }
    forall d: nat, o: nat | d < c + 1 && InReduced(extents, children, d, o) ensures (d, o) in all {
      if d == c {
        assert o in objects;
        var k :| 0 <= k < |objects| && objects[k] == o;
        assert all[|pairs| + k] == (c, o);
      } else {
        assert (d, o) in pairs;
      }
    }
    forall k, l | 0 <= k < l < |all| ensures all[k] != all[l] {
      if k < |pairs| <= l { assert pairs[k].0 < c; }
    }
  }

  /** Each object is in exactly one pair, with its object concept: as many pairs as objects. */
  lemma PairsPerObject(ctx: Context, extents: seq<set<nat>>, children: seq<set<nat>>, pairs: seq<(nat, nat)>)
    requires ctx.Valid() && IsConceptLattice(ctx, extents, children)
      && ReducedPairs(extents, children, pairs, |extents|)
    ensures forall k | 0 <= k < |pairs| ::
        pairs[k].1 < |ctx.rows| && extents[pairs[k].0] == ctx.Extent(ctx.rows[pairs[k].1])
    ensures |pairs| == |ctx.rows| && forall k, l | 0 <= k < l < |pairs| :: pairs[k].1 != pairs[l].1
  {
    hide MeetsOfColumns, LatticeDiagram, Diagram.Covers, InReduced;
    forall k | 0 <= k < |pairs|
      ensures pairs[k].1 < |ctx.rows| && IsObjectConcept(extents, pairs[k].1, pairs[k].0)
        && extents[pairs[k].0] == ctx.Extent(ctx.rows[pairs[k].1])
    {
      PairIsObjectConcept(ctx, extents, children, pairs[k].0, pairs[k].1);
    }
    forall k, l | 0 <= k < l < |pairs| ensures pairs[k].1 != pairs[l].1 {
      if pairs[k].1 == pairs[l].1 {
        SameObjectConcept(ctx, extents, children, pairs[k].1, pairs[k].0, pairs[l].0);
      }
    }
    var objects := seq(|pairs|, k requires 0 <= k < |pairs| => pairs[k].1);
    NoRepeatsCard(objects);
    RangeCard(|ctx.rows|);
    forall o: nat | o < |ctx.rows| ensures o in objects {
      var c := ObjectConceptExists(ctx, extents, children, o);
      ObjectConceptPaired(ctx, extents, children, c, o);
      assert (c, o) in pairs;
      var k :| 0 <= k < |pairs| && pairs[k] == (c, o);
      assert objects[k] == o;
    }
    assert ToSet(objects) == Range(|ctx.rows|);
  }

  lemma SameObjectConcept(ctx: Context, extents: seq<set<nat>>, children: seq<set<nat>>, o: nat, c: nat, d: nat)
    requires ctx.Valid() && IsConceptLattice(ctx, extents, children) && o < |ctx.rows|
    requires IsObjectConcept(extents, o, c) && IsObjectConcept(extents, o, d)
    ensures c == d
  {
    var e := ObjectConceptExists(ctx, extents, children, o);
  }

  lemma PairIsObjectConcept(ctx: Context, extents: seq<set<nat>>, children: seq<set<nat>>, c: nat, o: nat)
    requires ctx.Valid() && IsConceptLattice(ctx, extents, children) && c < |extents|
      && InReduced(extents, children, c, o)
    ensures IsObjectConcept(extents, o, c) && o < |ctx.rows| && extents[c] == ctx.Extent(ctx.rows[o])
  {
    var rext := set x | x in extents[c] && InReduced(extents, children, c, x);
    ReducedExtentIsObjectConcept(ctx, extents, children, o, c, rext);
    ExtentsInside(ctx, extents);
    var d := ObjectConceptExists(ctx, extents, children, o);
  }

  lemma ObjectConceptPaired(ctx: Context, extents: seq<set<nat>>, children: seq<set<nat>>, c: nat, o: nat)
    requires IsConceptLattice(ctx, extents, children) && IsObjectConcept(extents, o, c)
    ensures InReduced(extents, children, c, o)
  {
    var rext := set x | x in extents[c] && InReduced(extents, children, c, x);
    ReducedExtentIsObjectConcept(ctx, extents, children, o, c, rext);
  }

  /** The lattice with its labels, from the vectors of any run.  The hash is arbitrary. */
  method BuildLatticeCbo(ctx: Context, outs: seq<seq<Found>>, hash: set<nat> -> nat)
      returns (extents: seq<set<nat>>, intents: seq<set<nat>>, children: seq<seq<nat>>, rintents: seq<seq<nat>>,
               pairs: seq<(nat, nat)>)
    requires ctx.Valid() && Complete(ctx, outs)
    ensures IsConceptLattice(ctx, extents, AsSets(children)) && |children| == |extents|
    ensures forall p | 0 <= p < |extents| :: ListsCovers(extents, children[p], p)
    ensures |intents| == |extents| && forall c | 0 <= c < |extents| :: intents[c] == ctx.Intent(extents[c])
    ensures ColumnLabels(ctx, |ctx.cols|, extents, AsSets(rintents)) && |rintents| == |extents|
    ensures forall c | 0 <= c < |rintents| :: NoRepeats(rintents[c])
    ensures |pairs| == |ctx.rows| && forall k, l | 0 <= k < l < |pairs| :: pairs[k].1 != pairs[l].1
    ensures forall k | 0 <= k < |pairs| ::
        pairs[k].0 < |extents| && pairs[k].1 < |ctx.rows| && extents[pairs[k].0] == ctx.Extent(ctx.rows[pairs[k].1])
  {
    extents, intents := Concatenate(ctx, outs);
    var table := NumberExtents(extents, hash);
    rintents := ReducedIntents(ctx, extents, intents, table);
    var irr := ComputeIrreducibles(ctx);
    children := CoverAll(ctx, extents, intents, irr, table);
    IsTheLattice(ctx, extents, intents, children);
    ExtentsInside(ctx, extents);
    pairs := ComputeReducedPairs(extents, children, |ctx.rows|);
    PairsPerObject(ctx, extents, AsSets(children), pairs);
  }
}
