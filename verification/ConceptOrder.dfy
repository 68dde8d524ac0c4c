/** The mutable concept order: concepts numbered in order of creation, with their edges,
    and the insertion of an extent into a lattice diagram. */
module ConceptOrders {
  import opened FiniteSets
  import opened FormalContext
  import opened Diagram
  import Derivation

  class ConceptOrder {
    var counter: nat
    var extents: seq<set<nat>>
    var intents: seq<set<nat>>
    var rextents: seq<set<nat>>
    var rintents: seq<set<nat>>
    var children: seq<set<nat>>
    var parents: seq<set<nat>>
    var maximals: set<nat>
    var minimals: set<nat>

    /** Both directions of the edges agree, and the border sets hold exactly the concepts
        without parents and without children. */
    ghost predicate Valid()
      reads this
    {
      && |extents| == |intents| == |rextents| == |rintents| == |children| == |parents| == counter
      && Linked(children, parents) && Border(children, parents, maximals, minimals)
    }

    constructor ()
      ensures Valid() && counter == 0 && extents == [] && children == []
    {
      counter := 0;
      extents, intents, rextents, rintents := [], [], [], [];
      children, parents := [], [];
      maximals, minimals := {}, {};
    }

    method AddConcept(extent: set<nat>, intent: set<nat>) returns (n: nat)
      requires Valid()
      modifies this
      ensures Valid() && n == old(counter) && counter == n + 1
      ensures extents == old(extents) + [extent] && intents == old(intents) + [intent]
      ensures rextents == old(rextents) + [{}] && rintents == old(rintents) + [{}]
      ensures children == old(children) + [{}] && parents == old(parents) + [{}]
    {
      OneMoreConcept(children, parents, maximals, minimals);
      hide Linked, Border;
      n := counter;
      counter := counter + 1;
      extents, intents := extents + [extent], intents + [intent];
      rextents, rintents := rextents + [{}], rintents + [{}];
      children, parents := children + [{}], parents + [{}];
      maximals, minimals := maximals + {n}, minimals + {n};
    }

    method AddEdge(lower: nat, upper: nat)
      requires Valid() && lower < counter && upper < counter
      modifies `children, `parents, `maximals, `minimals
      ensures Valid()
      ensures children == old(children)[upper := old(children)[upper] + {lower}]
      ensures parents == old(parents)[lower := old(parents)[lower] + {upper}]
    {
      EdgeAdded(children, parents, maximals, minimals, lower, upper);
      hide Linked, Border;
      parents := parents[lower := parents[lower] + {upper}];
      children := children[upper := children[upper] + {lower}];
      maximals := maximals - {lower};
      minimals := minimals - {upper};
    }

    method RemoveEdge(lower: nat, upper: nat)
      requires Valid() && lower < counter && upper < counter
      modifies `children, `parents, `maximals, `minimals
      ensures Valid()
      ensures children == old(children)[upper := old(children)[upper] - {lower}]
      ensures parents == old(parents)[lower := old(parents)[lower] - {upper}]
    {
      EdgeRemoved(children, parents, maximals, minimals, lower, upper);
      hide Linked, Border;
      parents := parents[lower := parents[lower] - {upper}];
      children := children[upper := children[upper] - {lower}];
      if parents[lower] == {} { maximals := maximals + {lower}; }
      if children[upper] == {} { minimals := minimals + {upper}; }
    }

    /** The lattice invariant: the edges are the covers of a meet-closed family. */
    ghost predicate IsLattice()
      reads this
    {
      Valid() && LatticeDiagram(extents, children)
    }

    /** Walks down from `start` as long as a child contains the whole extent. */
    method GetSmallestContaining(extent: set<nat>, start: nat) returns (g: nat)
      requires IsLattice() && start < counter && extent <= extents[start]
      ensures g < counter && extents[g] <= extents[start]
      ensures Lowest(extents, children, extent, g)
    {
      g := start;
      var found := true;
      while found
        invariant g < counter && extent <= extents[g] <= extents[start]
        invariant !found ==> forall c | c in children[g] :: !(extent <= extents[c])
        decreases found, |extents[g]|
      {
        found := false;
        ghost var before := g;
        var c := 0;
        while c < counter
          invariant g == before && !found && c <= counter
          invariant forall k | k in children[g] && k < c :: !(extent <= extents[k])
        {
          if c in children[g] && extent <= extents[c] {
            assert CoveredBy(extents, c, g);
            SubsetCard(extents[c], extents[g]);
            g := c;
            found := true;
            break;
          }
          c := c + 1;
        }
      }
    }

    /** Adds the concept `candidate` to the maximal ones found so far: nothing happens when
        it is dominated; what it dominates is replaced by the last entry. */
    method AddMaximal(news0: seq<nat>, candidate: nat) returns (news: seq<nat>)
      requires candidate < |extents| && forall k | 0 <= k < |news0| :: news0[k] < |extents|
      requires Antichain(extents, news0)
      ensures forall k | 0 <= k < |news| :: news[k] == candidate || news[k] in news0
      ensures forall k | 0 <= k < |news| :: news[k] < |extents|
      ensures Antichain(extents, news)
      ensures Dominated(extents, news, extents[candidate])
      ensures forall k | 0 <= k < |news0| :: Dominated(extents, news, extents[news0[k]])
    {
      DominatedByItself(extents, news0);
      hide Antichain, Dominated, SwapOut;
      news := news0;
      var addChild := true;
      var j := |news| - 1;
      while j >= 0
        invariant -1 <= j < |news|
        invariant forall k | 0 <= k < |news| :: news[k] in news0 && news[k] < |extents|
        invariant Antichain(extents, news)
        invariant forall k | 0 <= k < |news0| ::
          extents[news0[k]] <= extents[candidate] || Dominated(extents, news, extents[news0[k]])
        invariant forall k | j < k < |news| ::
          !(extents[candidate] <= extents[news[k]]) && !(extents[news[k]] <= extents[candidate])
        invariant addChild
      {
        var ch := news[j];
        if extents[candidate] <= extents[ch] {
          addChild := false;
          DominatedAt(extents, news, j, extents[candidate]);
          break;
        } else if extents[ch] <= extents[candidate] {
          ghost var before := news;
          news := SwapOut(news, j);
          SwapKeeps(extents, before, j, candidate, news0);
        }
        j := j - 1;
      }
      if addChild {
        CandidateAdded(extents, news, candidate, news0);
        news := news + [candidate];
      } else {
        CandidateDominated(extents, news, candidate, news0);
      }
    }

    /** Inserts an extent below the concept `start` and hands back its concept.  The family
        of extents gains exactly the intersections of its members with the new extent, and
        the edges are the covers of the new family. */
    method AddExtent(extent: set<nat>, start: nat) returns (nc: nat)
      requires IsLattice() && start < counter && extent <= extents[start]
      modifies this
      ensures IsLattice() && nc < counter && extents[nc] == extent
      ensures MeetsAdded(old(extents), extents, extent) && old(extents) <= extents
      ensures LabelsKept(old(intents), intents) && NewUnlabelled(old(rintents), rintents)
      decreases |extents[start]|, 1
    {
      LabelsStart(intents, rintents);
      hide MeetClosed, MeetsBelow, Frontier, MeetsAdded, Distinct, Covers, Lowest, LabelsKept, NewUnlabelled;
      var g := GetSmallestContaining(extent, start);
      SubsetCard(extents[g], extents[start]);
      if extent == extents[g] {
        AlreadyThere(extents, extent, g);
        return g;
      }
      ghost var was, childrenWas := extents, children;
      var arr := Derivation.Elements(children[g], counter);
      var news := MeetChildren(extent, g, arr);
      ghost var intentsMid, rintentsMid := intents, rintents;
      assert Insertion(was, childrenWas, extents, extent, g, arr, news);
      InsertionCorrect(was, childrenWas, extents, children, extent, g, arr, news);
      InsertionShape(was, childrenWas, extents, extent, g, arr, news);
      FrontierBelow(was, childrenWas, extents, extent, g, arr, news);
      nc := Create(extent, g, news);
      LabelsOn(old(intents), intentsMid, intents, old(rintents), rintentsMid, rintents);
    }

    /** All children of the generator: inserts their meets with the extent and keeps the maximal
        ones. */
    method MeetChildren(extent: set<nat>, g: nat, arr: seq<nat>) returns (news: seq<nat>)
      requires IsLattice() && g < counter && forall d | d in arr :: d in children[g]
      modifies this
      ensures IsLattice() && old(extents) <= extents
      ensures LabelsKept(old(intents), intents) && NewUnlabelled(old(rintents), rintents)
      ensures forall k | 0 <= k < |arr| :: arr[k] < |old(extents)|
      ensures MeetsBelow(old(extents), extents, extent, arr) && Frontier(old(extents), extents, extent, arr, news)
      decreases |extents[g]|, 0
    {
      ghost var was := extents;
      ChildrenSmaller(was, children, g, arr);
      hide MeetsBelow, Frontier, LatticeDiagram, MeetClosed, MeetsAdded, LabelsKept, NewUnlabelled, Linked, Border,
          Antichain, Dominated;
      news := [];
      MeetsBelowStart(was, extent);
      FrontierStart(was, extent);
      LabelsStart(intents, rintents);
      for ci := 0 to |arr|
        invariant IsLattice() && was <= extents
        invariant LabelsKept(old(intents), intents) && NewUnlabelled(old(rintents), rintents)
        invariant MeetsBelow(was, extents, extent, arr[..ci])
        invariant Frontier(was, extents, extent, arr[..ci], news)
      {
        assert arr[..ci + 1] == arr[..ci] + [arr[ci]];
        ghost var intentsMid, rintentsMid := intents, rintents;
        ghost var mid, before := extents, news;
        var candidate := AddExtent(extent * extents[arr[ci]], arr[ci]);
        MeetsBelowStep(was, mid, extents, extent, arr[..ci], arr[ci]);
        FrontierIsAntichain(was, mid, extents, extent, arr[..ci], news);
        news := AddMaximal(news, candidate);
        FrontierStep(was, mid, extents, extent, arr[..ci], arr[ci], before, candidate, news);
        LabelsOn(old(intents), intentsMid, intents, old(rintents), rintentsMid, rintents);
      }
      assert arr[..|arr|] == arr;
    }

    /** Creates the concept of the extent between the generator and the concepts `news`. */
    method Create(extent: set<nat>, g: nat, news: seq<nat>) returns (nc: nat)
      requires Valid() && g < counter && forall k | 0 <= k < |news| :: news[k] < counter && news[k] != g
      modifies this
      ensures Valid() && nc == old(counter) < counter && extents == old(extents) + [extent]
      ensures children == Rewired(old(children), g, news)
      ensures LabelsKept(old(intents), intents) && NewUnlabelled(old(rintents), rintents)
    {
      OneMoreLabel(intents, intents[g], rintents);
      hide Linked, Border, LabelsKept, NewUnlabelled, Rewired;
      nc := AddConcept(extent, intents[g]);
      Rewire(g, news, nc, old(children));
    }

    /** The concepts `news` move from below g to below the concept nc, which comes below g. */
    method Rewire(g: nat, news: seq<nat>, nc: nat, ghost was: seq<set<nat>>)
      requires Valid() && counter == nc + 1 && children == was + [{}] && g < nc
      requires forall k | 0 <= k < |news| :: news[k] < nc && news[k] != g
      modifies `children, `parents, `maximals, `minimals
      ensures Valid() && children == Rewired(was, g, news)
    {
      hide Linked, Border;
      for i := 0 to |news|
        invariant Valid() && |children| == nc + 1
        invariant children[g] == was[g] - ToSet(news[..i]) && children[nc] == ToSet(news[..i])
        invariant forall p | 0 <= p < nc && p != g :: children[p] == was[p]
      {
        assert news[..i + 1] == news[..i] + [news[i]];
        RemoveEdge(news[i], g);
        AddEdge(news[i], nc);
      }
      assert news[..|news|] == news;
      AddEdge(nc, g);
      assert children == Rewired(was, g, news);
    }
  }

  /** Both directions of the edges agree. */
  ghost predicate Linked(children: seq<set<nat>>, parents: seq<set<nat>>) {
    && |children| == |parents|
    && (forall p | 0 <= p < |children| :: forall c | c in children[p] :: c < |children|)
    && (forall c | 0 <= c < |children| :: forall p | p in parents[c] :: p < |children|)
    && (forall c: nat, p: nat | c < |children| && p < |children| :: c in children[p] <==> p in parents[c])
  }

  /** The border sets hold exactly the concepts without parents and without children. */
  ghost predicate Border(children: seq<set<nat>>, parents: seq<set<nat>>, maximals: set<nat>, minimals: set<nat>) {
    && (forall c: nat :: c in maximals <==> c < |parents| && parents[c] == {})
    && (forall p: nat :: p in minimals <==> p < |children| && children[p] == {})
  }

  lemma OneMoreConcept(children: seq<set<nat>>, parents: seq<set<nat>>, maximals: set<nat>, minimals: set<nat>)
    requires Linked(children, parents) && Border(children, parents, maximals, minimals)
    ensures Linked(children + [{}], parents + [{}])
    ensures Border(children + [{}], parents + [{}], maximals + {|children|}, minimals + {|children|})
  {}

  lemma EdgeAdded(children: seq<set<nat>>, parents: seq<set<nat>>, maximals: set<nat>, minimals: set<nat>, c: nat,
                  p: nat)
    requires Linked(children, parents) && Border(children, parents, maximals, minimals)
    requires c < |children| && p < |children|
    ensures var children', parents' := children[p := children[p] + {c}], parents[c := parents[c] + {p}];
      Linked(children', parents') && Border(children', parents', maximals - {c}, minimals - {p})
  {}

  lemma EdgeRemoved(children: seq<set<nat>>, parents: seq<set<nat>>, maximals: set<nat>, minimals: set<nat>, c: nat,
                    p: nat)
    requires Linked(children, parents) && Border(children, parents, maximals, minimals)
    requires c < |children| && p < |children|
    ensures var children', parents' := children[p := children[p] - {c}], parents[c := parents[c] - {p}];
      && Linked(children', parents')
      && Border(children', parents', if parents'[c] == {} then maximals + {c} else maximals,
                if children'[p] == {} then minimals + {p} else minimals)
  {}

  ghost predicate Antichain(ext: seq<set<nat>>, news: seq<nat>)
    requires forall k | 0 <= k < |news| :: news[k] < |ext|
  {
    forall j, k | 0 <= j < |news| && 0 <= k < |news| && j != k :: !(ext[news[j]] <= ext[news[k]])
  }

  /** The last entry takes the place of entry j. */
  function SwapOut(news: seq<nat>, j: nat): (r: seq<nat>)
    requires j < |news|
    ensures |r| == |news| - 1 && forall k | 0 <= k < |r| :: r[k] == news[if k == j then |r| else k]
  {
    news[j := news[|news| - 1]][..|news| - 1]
  }

  /** Replacing a dominated entry by the last one loses nothing else. */
  lemma SwapKeeps(ext: seq<set<nat>>, news: seq<nat>, j: int, candidate: nat, news0: seq<nat>)
    requires 0 <= j < |news| && candidate < |ext|
    requires forall k | 0 <= k < |news| :: news[k] in news0 && news[k] < |ext|
    requires forall k | 0 <= k < |news0| :: news0[k] < |ext|
    requires ext[news[j]] <= ext[candidate] && Antichain(ext, news)
    requires forall k | 0 <= k < |news0| ::
      ext[news0[k]] <= ext[candidate] || Dominated(ext, news, ext[news0[k]])
    requires forall k | j < k < |news| ::
      !(ext[candidate] <= ext[news[k]]) && !(ext[news[k]] <= ext[candidate])
    ensures |SwapOut(news, j)| == |news| - 1
    ensures forall k | 0 <= k < |SwapOut(news, j)| :: SwapOut(news, j)[k] in news0 && SwapOut(news, j)[k] < |ext|
    ensures Antichain(ext, SwapOut(news, j))
    ensures forall k | 0 <= k < |news0| ::
      ext[news0[k]] <= ext[candidate] || Dominated(ext, SwapOut(news, j), ext[news0[k]])
    ensures forall k | j <= k < |SwapOut(news, j)| ::
      !(ext[candidate] <= ext[SwapOut(news, j)[k]]) && !(ext[SwapOut(news, j)[k]] <= ext[candidate])
  {
    var last := |news| - 1;
    var after := SwapOut(news, j);
    forall k | 0 <= k < |news0| && !(ext[news0[k]] <= ext[candidate]) ensures Dominated(ext, after, ext[news0[k]]) {
      var m :| 0 <= m < |news| && ext[news0[k]] <= ext[news[m]];
      assert m != j;
      assert after[if m == last then j else m] == news[m];
    }
  }

  lemma DominatedAt(ext: seq<set<nat>>, news: seq<nat>, j: nat, x: set<nat>)
    requires j < |news| && (forall k | 0 <= k < |news| :: news[k] < |ext|) && x <= ext[news[j]]
    ensures Dominated(ext, news, x)
  {}

  lemma DominatedByItself(ext: seq<set<nat>>, news: seq<nat>)
    requires forall k | 0 <= k < |news| :: news[k] < |ext|
    ensures forall k | 0 <= k < |news| :: Dominated(ext, news, ext[news[k]])
  {
    forall k | 0 <= k < |news| ensures Dominated(ext, news, ext[news[k]]) {
      DominatedAt(ext, news, k, ext[news[k]]);
    }
  }

  lemma CandidateAdded(ext: seq<set<nat>>, news: seq<nat>, candidate: nat, news0: seq<nat>)
    requires candidate < |ext| && (forall k | 0 <= k < |news| :: news[k] < |ext|) && Antichain(ext, news)
    requires forall k | 0 <= k < |news0| ::
      news0[k] < |ext| && (ext[news0[k]] <= ext[candidate] || Dominated(ext, news, ext[news0[k]]))
    requires forall k | 0 <= k < |news| :: !(ext[candidate] <= ext[news[k]]) && !(ext[news[k]] <= ext[candidate])
    ensures var after := news + [candidate];
      Antichain(ext, after) && Dominated(ext, after, ext[candidate])
      && forall k | 0 <= k < |news0| :: Dominated(ext, after, ext[news0[k]])
  {
    var after := news + [candidate];
    assert after[|news|] == candidate;
    forall k | 0 <= k < |news0| ensures Dominated(ext, after, ext[news0[k]]) {
      if Dominated(ext, news, ext[news0[k]]) {
        var m :| 0 <= m < |news| && ext[news0[k]] <= ext[news[m]];
        assert after[m] == news[m];
      }
    }
  }

  lemma CandidateDominated(ext: seq<set<nat>>, news: seq<nat>, candidate: nat, news0: seq<nat>)
    requires candidate < |ext| && (forall k | 0 <= k < |news| :: news[k] < |ext|)
    requires Dominated(ext, news, ext[candidate])
    requires forall k | 0 <= k < |news0| ::
      news0[k] < |ext| && (ext[news0[k]] <= ext[candidate] || Dominated(ext, news, ext[news0[k]]))
    ensures forall k | 0 <= k < |news0| :: Dominated(ext, news, ext[news0[k]])
  {
    forall k | 0 <= k < |news0| ensures Dominated(ext, news, ext[news0[k]]) {
      if ext[news0[k]] <= ext[candidate] {
        var m :| 0 <= m < |news| && ext[candidate] <= ext[news[m]];
        assert ext[news0[k]] <= ext[news[m]];
      }
    }
  }

  /** Concepts keep their labels, and new ones start with a label that was there or with
      none. */
  ghost predicate LabelsKept(before: seq<set<nat>>, after: seq<set<nat>>) {
    && before <= after
    && forall k | |before| <= k < |after| :: after[k] == {} || after[k] in before
  }

  /** Concepts keep their labels, and new ones have none. */
  ghost predicate NewUnlabelled(before: seq<set<nat>>, after: seq<set<nat>>) {
    before <= after && forall k | |before| <= k < |after| :: after[k] == {}
  }

  lemma LabelsStart(before: seq<set<nat>>, before': seq<set<nat>>)
    ensures LabelsKept(before, before) && NewUnlabelled(before', before')
  {}

  lemma OneMoreLabel(before: seq<set<nat>>, lab: set<nat>, before': seq<set<nat>>)
    requires lab in before
    ensures LabelsKept(before, before + [lab]) && NewUnlabelled(before', before' + [{}])
  {}

  lemma LabelsOn(before: seq<set<nat>>, mid: seq<set<nat>>, after: seq<set<nat>>,
                 before': seq<set<nat>>, mid': seq<set<nat>>, after': seq<set<nat>>)
    requires LabelsKept(before, mid) && LabelsKept(mid, after)
    requires NewUnlabelled(before', mid') && NewUnlabelled(mid', after')
    ensures LabelsKept(before, after) && NewUnlabelled(before', after')
  {
    forall k | |before| <= k < |after| ensures after[k] == {} || after[k] in before {
      if |mid| <= k && after[k] in mid {
        var m :| 0 <= m < |mid| && mid[m] == after[k];
        assert m < |before| ==> mid[m] == before[m];
      } else if k < |mid| {
        assert after[k] == mid[k];
      }
    }
    forall k | |before'| <= k < |after'| ensures after'[k] == {} {
      if k < |mid'| { assert after'[k] == mid'[k]; }
    }
  }

  /** Children are smaller than their parent. */
  lemma ChildrenSmaller(ext: seq<set<nat>>, children: seq<set<nat>>, g: nat, arr: seq<nat>)
    requires LatticeDiagram(ext, children) && g < |children| && forall d | d in arr :: d in children[g]
    ensures g < |ext| && MeetClosed(ext)
    ensures forall k | 0 <= k < |arr| :: arr[k] < |ext| && |ext[arr[k]]| < |ext[g]|
  {
    hide MeetClosed, Distinct;
    forall k | 0 <= k < |arr| ensures arr[k] < |ext| && |ext[arr[k]]| < |ext[g]| {
      assert arr[k] in arr && CoveredBy(ext, arr[k], g);
      SubsetCard(ext[arr[k]], ext[g]);
    }
  }

  lemma AlreadyThere(ext: seq<set<nat>>, e: set<nat>, g: nat)
    requires MeetClosed(ext) && g < |ext| && ext[g] == e
    ensures MeetsAdded(ext, ext, e)
  {
    hide MeetClosed;
    forall y: set<nat> | y in ext ensures e * y in ext {
      assert ext[g] in ext;
      MeetIn(ext, e, y);
    }
  }

  lemma FrontierStart(was: seq<set<nat>>, e: set<nat>)
    ensures Frontier(was, was, e, [], [])
  {}

  lemma FrontierIsAntichain(was: seq<set<nat>>, mid: seq<set<nat>>, ext: seq<set<nat>>, e: set<nat>, done: seq<nat>,
                            news: seq<nat>)
    requires (forall k | 0 <= k < |done| :: done[k] < |was|) && mid <= ext && Frontier(was, mid, e, done, news)
    ensures (forall k | 0 <= k < |news| :: news[k] < |mid|) && Antichain(ext, news)
  {}

  lemma FrontierBelow(was: seq<set<nat>>, childrenWas: seq<set<nat>>, mid: seq<set<nat>>, e: set<nat>, g: nat,
                      done: seq<nat>, news: seq<nat>)
    requires Insertion(was, childrenWas, mid, e, g, done, news)
    ensures forall k | 0 <= k < |news| :: news[k] < |mid| && news[k] != g
  {
    SlotOfInsertion(was, childrenWas, mid, e, g, done, news);
    hide Insertion;
  }

  lemma FrontierFrom(was: seq<set<nat>>, mid: seq<set<nat>>, ext: seq<set<nat>>, e: set<nat>, done: seq<nat>,
                     d: nat, before: seq<nat>, candidate: nat, news: seq<nat>)
    requires (forall k | 0 <= k < |done| :: done[k] < |was|) && d < |was| && mid <= ext
    requires Frontier(was, mid, e, done, before) && candidate < |ext| && ext[candidate] == e * was[d]
    requires forall k | 0 <= k < |news| :: (news[k] == candidate || news[k] in before) && news[k] < |ext|
    ensures forall k | 0 <= k < |news| :: FromMeet(was, e, done + [d], ext[news[k]])
  {
    var done' := done + [d];
    assert done'[|done|] == d && forall j | 0 <= j < |done| :: done'[j] == done[j];
    forall k | 0 <= k < |news| ensures FromMeet(was, e, done', ext[news[k]]) {
      if news[k] in before {
        var m :| 0 <= m < |before| && before[m] == news[k];
        assert FromMeet(was, e, done, mid[before[m]]);
        var j :| 0 <= j < |done| && mid[before[m]] == e * was[done[j]];
        assert ext[news[k]] == e * was[done'[j]];
      } else {
        assert ext[news[k]] == e * was[done'[|done|]];
      }
    }
  }

  lemma FrontierTops(was: seq<set<nat>>, mid: seq<set<nat>>, ext: seq<set<nat>>, e: set<nat>, done: seq<nat>,
                     d: nat, before: seq<nat>, candidate: nat, news: seq<nat>)
    requires (forall k | 0 <= k < |done| :: done[k] < |was|) && d < |was| && mid <= ext
    requires Frontier(was, mid, e, done, before) && candidate < |ext| && ext[candidate] == e * was[d]
    requires (forall k | 0 <= k < |news| :: news[k] < |ext|) && Dominated(ext, news, ext[candidate])
    requires forall k | 0 <= k < |before| :: before[k] < |ext| && Dominated(ext, news, ext[before[k]])
    ensures forall j | 0 <= j <= |done| :: Dominated(ext, news, e * was[(done + [d])[j]])
  {
    var done' := done + [d];
    assert done'[|done|] == d && forall j | 0 <= j < |done| :: done'[j] == done[j];
    forall j | 0 <= j < |done'| ensures Dominated(ext, news, e * was[done'[j]]) {
      if j < |done| {
        assert Dominated(mid, before, e * was[done[j]]);
        var m :| 0 <= m < |before| && e * was[done[j]] <= mid[before[m]];
        assert Dominated(ext, news, ext[before[m]]);
        var k :| 0 <= k < |news| && ext[before[m]] <= ext[news[k]];
        assert e * was[done'[j]] <= ext[news[k]];
      }
    }
  }

  lemma FrontierStep(was: seq<set<nat>>, mid: seq<set<nat>>, ext: seq<set<nat>>, e: set<nat>, done: seq<nat>, d: nat,
                     before: seq<nat>, candidate: nat, news: seq<nat>)
    requires (forall k | 0 <= k < |done| :: done[k] < |was|) && d < |was| && mid <= ext
    requires Frontier(was, mid, e, done, before)
    requires candidate < |ext| && ext[candidate] == e * was[d]
    requires forall k | 0 <= k < |news| :: (news[k] == candidate || news[k] in before) && news[k] < |ext|
    requires Antichain(ext, news) && Dominated(ext, news, ext[candidate])
    requires forall k | 0 <= k < |before| :: Dominated(ext, news, ext[before[k]])
    ensures Frontier(was, ext, e, done + [d], news)
  {
    FrontierFrom(was, mid, ext, e, done, d, before, candidate, news);
    FrontierTops(was, mid, ext, e, done, d, before, candidate, news);
    hide FromMeet, Dominated;
  }
}
