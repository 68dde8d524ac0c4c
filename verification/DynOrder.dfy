/** The mutable concept order of Ares: concepts that come and go, covers kept by hand, and
    the searches over them. */
module DynOrders {
  import opened FiniteSets
  import opened Graphs
  import opened Reachability
  import opened LiveDiagram
  import opened Marking
  import BucketSort
  import Derivation

  class DynOrder {
    var ext: seq<set<nat>>
    var rext: seq<set<nat>>
    var rint: seq<set<nat>>
    var lower: seq<set<nat>>
    var upper: seq<set<nat>>
    var alive: seq<bool>

    ghost predicate Valid()
      reads this
    {
      |rext| == |rint| == |lower| == |alive| == |ext| && Mirrored(lower, upper)
    }

    ghost function Live(): set<nat>
      reads this
    {
      set c: nat | c < |alive| && alive[c]
    }

    constructor ()
      ensures Valid() && ext == [] && rext == [] && rint == [] && lower == [] && upper == [] && alive == []
    {
      ext, rext, rint, lower, upper, alive := [], [], [], [], [], [];
    }

    /** A new concept, alive, with empty sets and without edges. */
    method NewConcept() returns (c: nat)
      requires Valid()
      modifies this
      ensures Valid() && c == |old(ext)| && Live() == old(Live()) + {c}
      ensures ext == old(ext) + [{}] && rext == old(rext) + [{}] && rint == old(rint) + [{}]
      ensures lower == old(lower) + [{}] && upper == old(upper) + [{}]
    {
      c := |ext|;
      ext, rext, rint, lower, upper := ext + [{}], rext + [{}], rint + [{}], lower + [{}], upper + [{}];
      alive := alive + [true];
    }

    /** The edge must be new: the source stores edges in lists. */
    method AddEdge(l: nat, u: nat)
      requires Valid() && l < |ext| && u < |ext| && l !in lower[u]
      modifies `lower, `upper
      ensures Valid() && lower == old(lower)[u := old(lower)[u] + {l}] && upper == old(upper)[l := old(upper)[l] + {u}]
    {
      upper := upper[l := upper[l] + {u}];
      lower := lower[u := lower[u] + {l}];
    }

    /** Removing an edge that is not there changes nothing. */
    method RemoveEdge(l: nat, u: nat)
      requires Valid() && l < |ext| && u < |ext|
      modifies `lower, `upper
      ensures Valid() && lower == old(lower)[u := old(lower)[u] - {l}] && upper == old(upper)[l := old(upper)[l] - {u}]
    {
      upper := upper[l := upper[l] - {u}];
      lower := lower[u := lower[u] - {l}];
    }

    method RemoveConcept(c: nat)
      requires Valid() && c < |ext| && alive[c] && lower[c] == {} == upper[c]
      modifies `alive
      ensures Valid() && Live() == old(Live()) - {c}
    {
      alive := alive[c := false];
    }

    /** The extent without those of the lower covers. */
    method ReducedExtent(c: nat) returns (red: set<nat>)
      requires Valid() && c < |ext|
      ensures forall o: nat :: o in red <==> o in ext[c] && forall d | d in lower[c] :: d < |ext| && o !in ext[d]
    {
      red := ext[c];
      for d := 0 to |ext|
        invariant forall o: nat :: o in red <==> o in ext[c] && forall e | e in lower[c] && e < d :: o !in ext[e]
      {
        if d in lower[c] {
          red := red - ext[d];
        }
      }
      assert forall d | d in lower[c] :: d < |ext|;
    }

    /** The living concepts by increasing size of their extents. */
    method SortByExtent(n: nat) returns (order: seq<nat>)
      requires Valid() && forall c | c in Live() :: |ext[c]| <= n
      ensures NoRepeats(order) && ToSet(order) == Live()
      ensures forall p, q | 0 <= p <= q < |order| ::
          order[p] < |ext| && order[q] < |ext| && |ext[order[p]]| <= |ext[order[q]]|
    {
      var living := ListLiving();
      var keys := seq(|living|, i requires 0 <= i < |living| && living[i] < |ext| reads this => |ext[living[i]]|);
      var places := BucketSort.Sort(keys, n);
      order := seq(|places|, p requires 0 <= p < |places| && places[p] < |living| => living[places[p]]);
      PlacesPermute(living, places, order);
    }

    method ListLiving() returns (living: seq<nat>)
      requires Valid()
      ensures NoRepeats(living) && ToSet(living) == Live() && forall i | 0 <= i < |living| :: living[i] in Live()
    {
      hide Mirrored;
      living := [];
      for c := 0 to |ext|
        invariant NoRepeats(living) && forall d: nat :: d in living <==> d < c && d in Live()
      {
        if alive[c] {
          assert forall i | 0 <= i < |living| :: living[i] in living;
          assert forall d: nat :: d in living + [c] <==> d in living || d == c;
          living := living + [c];
        }
      }
      assert forall i | 0 <= i < |living| :: living[i] in living;
    }

    /** The selected concepts that no other selected one lies above: what the descents from
        the covers of the selected ones do not meet. */
    method MaximalOf(list: seq<nat>, ghost live: set<nat>) returns (sel: seq<nat>)
      requires Valid() && Navigable(ext, live, lower) && NoRepeats(list) && ToSet(list) <= live
      ensures NoRepeats(sel) && forall v :: v in sel <==> v in list && NoneAbove(ext, ToSet(list), v)
    {
      hide Navigable, Mirrored;
      if |list| == 0 {
        return [];
      }
      if |list| == 1 {
        AloneIsMaximal(ext, list);
        return list;
      }
      var marks := MarkStrictlyBelow(list, live);
      sel := KeepUnmarked(list, marks);
      forall v | v in list ensures v in marks <==> !NoneAbove(ext, ToSet(list), v) {
        MarkedIsDominated(ext, live, ToSet(list), v);
      }
    }

    /** Everything strictly below some element of the list. */
    method MarkStrictlyBelow(list: seq<nat>, ghost live: set<nat>) returns (marks: set<nat>)
      requires Valid() && Navigable(ext, live, lower) && ToSet(list) <= live
      ensures forall v | v in live :: v in marks <==> BelowSome(ext, ToSet(list), v)
    {
      hide Reach, Navigable;
      InRange(ext, live, lower);
      var start: set<nat>, stack: seq<nat> := {}, [];
      for i := 0 to |list|
        invariant ToSet(stack) == start && start <= Range(|lower|)
        invariant forall w :: w in start <==> exists s :: s in list[..i] && s < |lower| && w in lower[s]
      {
        assert list[i] in ToSet(list) && list[..i + 1] == list[..i] + [list[i]];
        ghost var start0 := start;
        start, stack := PushAll(lower[list[i]], start, stack);
        forall w ensures w in start <==> exists s :: s in list[..i + 1] && s < |lower| && w in lower[s] {
          assert w in start <==> w in start0 || w in lower[list[i]];
        }
      }
      assert list[..|list|] == list;
      marks := MarkFrom(lower, start, stack);
      forall v | v in live ensures v in marks <==> BelowSome(ext, ToSet(list), v) {
        StrictlyBelowIsReached(ext, live, lower, ToSet(list), start, v);
      }
    }

    method PushAll(row: set<nat>, start0: set<nat>, stack0: seq<nat>) returns (start: set<nat>, stack: seq<nat>)
      requires ToSet(stack0) == start0 <= Range(|lower|) && row <= Range(|lower|)
      ensures ToSet(stack) == start == start0 + row && start <= Range(|lower|)
    {
      start, stack := start0, stack0;
      for w := 0 to |lower|
        invariant ToSet(stack) == start && start == start0 + (set x | x in row && x < w)
      {
        if w in row && w !in start {
          assert ToSet(stack + [w]) == ToSet(stack) + {w};
          start, stack := start + {w}, stack + [w];
        }
      }
      assert (set x | x in row && x < |lower|) == row;
    }

    method KeepUnmarked(list: seq<nat>, marks: set<nat>) returns (sel: seq<nat>)
      requires NoRepeats(list)
      ensures NoRepeats(sel) && forall v :: v in sel <==> v in list && v !in marks
    {
      sel := [];
      for i := 0 to |list|
        invariant NoRepeats(sel) && forall v :: v in sel <==> v in list[..i] && v !in marks
      {
        assert list[..i + 1] == list[..i] + [list[i]];
        if list[i] !in marks {
          assert forall j | 0 <= j < |sel| :: sel[j] in list[..i];
          sel := sel + [list[i]];
        }
      }
      assert list[..|list|] == list;
    }

    /** Among what lies below c, the selected concepts that no other selected one there lies
        above. */
    method MaximalSelectedDescendants(c: nat, selected: set<nat>, ghost live: set<nat>) returns (sel: seq<nat>)
      requires Valid() && Navigable(ext, live, lower) && c in live && selected <= live && c !in selected
      ensures NoRepeats(sel) && c < |ext|
      ensures forall v ::
          v in sel <==> v in selected && v < |ext| && ext[v] < ext[c] && NoneAbove(ext,
              SelectedBelow(ext, selected, c), v)
    {
      hide Reach, Navigable;
      InRange(ext, live, lower);
      var below := MarkFrom(lower, {c}, [c]);
      var list: seq<nat> := [];
      for v := 0 to |ext|
        invariant NoRepeats(list) && forall w: nat :: w in list <==> w < v && w in below && w in selected
      {
        if v in below && v in selected {
          assert forall i | 0 <= i < |list| :: list[i] in list;
          assert forall w: nat :: w in list + [v] <==> w in list || w == v;
          list := list + [v];
        }
      }
      forall v | v in live ensures v in below <==> v == c || (v < |ext| && ext[v] < ext[c]) {
        Descends(ext, live, lower, c, v);
        FromOne(lower, c, v);
      }
      assert ToSet(list) == SelectedBelow(ext, selected, c);
      var marks := MarkStrictlyBelow(list, live);
      sel := KeepUnmarked(list, marks);
      forall v | v in list ensures v in marks <==> !NoneAbove(ext, ToSet(list), v) {
        MarkedIsDominated(ext, live, ToSet(list), v);
      }
    }

    // ---- surgery on the edges ----

    method Hang(sel: seq<nat>, to: nat)
      requires Valid() && to < |ext| && NoRepeats(sel) && forall v | v in sel :: v < |ext| && v !in lower[to]
      modifies `lower, `upper
      ensures Valid() && lower == old(lower)[to := old(lower)[to] + ToSet(sel)]
    {
      hide Mirrored;
      for i := 0 to |sel|
        invariant Valid() && |lower| == |ext| && lower[to] == old(lower)[to] + ToSet(sel[..i])
        invariant forall q | 0 <= q < |ext| && q != to :: lower[q] == old(lower)[q]
      {
        assert sel[..i + 1] == sel[..i] + [sel[i]];
        assert ToSet(sel[..i + 1]) == ToSet(sel[..i]) + {sel[i]};
        assert sel[i] in sel && sel[i] !in ToSet(sel[..i]);
        AddEdge(sel[i], to);
      }
      assert sel[..|sel|] == sel;
    }

    /** The concepts of the list go from below `from` to below `to`. */
    method Rehang(sel: seq<nat>, from: nat, to: nat)
      requires Valid() && from < |ext| && to < |ext| && from != to && NoRepeats(sel)
      requires forall v | v in sel :: v < |ext| && v !in lower[to]
      modifies `lower, `upper
      ensures Valid() && lower == old(lower)[to := old(lower)[to] + ToSet(sel)][from := old(lower)[from] - ToSet(sel)]
    {
      hide Mirrored;
      for i := 0 to |sel|
        invariant Valid() && |lower| == |ext|
        invariant lower[to] == old(lower)[to] + ToSet(sel[..i]) && lower[from] == old(lower)[from] - ToSet(sel[..i])
        invariant forall q | 0 <= q < |ext| && q != to && q != from :: lower[q] == old(lower)[q]
      {
        assert sel[..i + 1] == sel[..i] + [sel[i]];
        assert ToSet(sel[..i + 1]) == ToSet(sel[..i]) + {sel[i]};
        assert sel[i] in sel && sel[i] !in ToSet(sel[..i]);
        AddEdge(sel[i], to);
        RemoveEdge(sel[i], from);
      }
      assert sel[..|sel|] == sel;
    }

    /** What lies directly below `to` is no longer directly below `from`. */
    method Unlink(to: nat, from: nat)
      requires Valid() && from < |ext| && to < |ext| && from != to
      modifies `lower, `upper
      ensures Valid() && lower == old(lower)[from := old(lower)[from] - old(lower)[to]]
    {
      ghost var row := lower[to];
      assert row <= Range(|lower|);
      hide Mirrored;
      for w := 0 to |ext|
        invariant Valid() && |lower| == |ext| && lower[from] == old(lower)[from] - Derivation.Below(row, w)
        invariant forall q | 0 <= q < |ext| && q != from :: lower[q] == old(lower)[q]
      {
        if w in lower[to] {
          RemoveEdge(w, from);
        }
        assert Derivation.Below(row, w + 1) == Derivation.Below(row, w) + (if w in row then {w} else {});
      }
      assert Derivation.Below(row, |ext|) == row;
    }

    /** Everything that can be reached going up from c. */
    method Ancestors(c: nat) returns (up: set<nat>)
      requires Valid() && c < |ext|
      ensures forall p :: p in up <==> Reach(upper, c, p)
    {
      up := MarkFrom(upper, {c}, [c]);
      hide Reach;
      forall p ensures p in up <==> Reach(upper, c, p) {
        FromOne(upper, c, p);
      }
    }

    /** Cuts all edges of r. */
    method Detach(r: nat) returns (parents: set<nat>, children: set<nat>)
      requires Valid() && r < |ext| && r !in lower[r]
      modifies `lower, `upper
      ensures Valid() && children == old(lower)[r] && forall p: nat :: p in parents <==> p < |ext| && r in old(lower)[p]
      ensures |lower| == |ext| && forall p | 0 <= p < |ext| :: lower[p] == if p == r then {} else old(lower)[p] - {r}
    {
      parents, children := upper[r], lower[r];
      assert children <= Range(|lower|) && parents <= Range(|lower|);
      assert forall p: nat | p < |ext| :: p in parents <==> r in lower[p];
      hide Mirrored;
      for p := 0 to |ext|
        invariant Valid() && |lower| == |ext|
        invariant forall q | 0 <= q < |ext| ::
            lower[q] == if q < p && q in parents then old(lower)[q] - {r} else old(lower)[q]
      {
        if p in parents {
          RemoveEdge(r, p);
        }
      }
      for x := 0 to |ext|
        invariant Valid() && |lower| == |ext|
        invariant lower[r] == children - Derivation.Below(children, x)
        invariant forall q | 0 <= q < |ext| && q != r :: lower[q] == old(lower)[q] - {r}
      {
        if x in children {
          RemoveEdge(x, r);
        }
        assert Derivation.Below(children, x + 1) == Derivation.Below(children, x) + (if x in children then {x} else {});
      }
    }

    /** Hangs x below those of the parents that are not marked. */
    method AttachChild(x: nat, parents: set<nat>, marks: set<nat>)
      requires Valid() && x < |ext| && forall p | p in parents :: p < |ext| && x !in lower[p]
      modifies `lower, `upper
      ensures Valid() && |lower| == |ext|
      ensures forall p | 0 <= p < |ext| :: lower[p] == old(lower)[p] + (if p in parents && p !in marks then {x} else {})
    {
      hide Mirrored;
      for p := 0 to |ext|
        invariant Valid() && |lower| == |ext|
        invariant forall q | 0 <= q < |ext| ::
            lower[q] == old(lower)[q] + (if q < p && q in parents && q !in marks then {x} else {})
      {
        if p in parents && p !in marks {
          AddEdge(x, p);
        }
      }
    }

    /** The child x goes below those of the parents of r to which nothing else leads. */
    method HangHigher(x: nat, r: nat, parents: set<nat>, ghost live: set<nat>, ghost lower0: seq<set<nat>>,
                      ghost kids: set<nat>)
      requires Valid() && LiveHasse(ext, live, lower0) && r < |ext| == |lower0| && x < |ext|
      requires kids <= lower0[r] && x in lower0[r] && x !in kids && lower == Partly(ext, live, lower0, r, kids)
      requires forall p: nat :: p in parents <==> p < |ext| && r in lower0[p]
      modifies `lower, `upper
      ensures Valid() && lower == Partly(ext, live, lower0, r, kids + {x})
    {
      NotBelowItself(ext, live, lower0, r);
      hide LiveHasse, Reach, Bypass, Partly;
      ghost var lower1 := lower;
      var marks := MarkUntil(upper, x, parents);
      forall p | p in parents ensures p < |ext| && x !in lower[p] && (p in marks <==> Bypass(ext, live, r, x, p)) {
        BypassIsReached(ext, live, lower0, lower, upper, r, kids, x, p);
      }
      AttachChild(x, parents, marks);
      OneMoreKid(ext, live, lower0, r, kids, x, parents, marks, lower1, lower);
    }

    /** Removes r; its children go to those of its parents that they do not reach without
        it. */
    method Remove(r: nat)
      requires Valid() && r < |ext| && r in Live() && LiveHasse(ext, Live(), lower)
      modifies `lower, `upper, `alive
      ensures Valid() && Live() == old(Live()) - {r} && lower == Removed(ext, old(Live()), old(lower), r)
    {
      hide LiveHasse;
      ghost var live, lower0 := Live(), lower;
      NotBelowItself(ext, live, lower, r);
      var parents, children := Detach(r);
      CoversInRange(ext, live, lower0, r);
      NoKids(ext, live, lower0, r, lower);
      hide Mirrored, Reach, Bypass, Partly;
      assert Derivation.Below(children, 0) == {};
      for x := 0 to |ext|
        invariant Valid() && Live() == live && lower == Partly(ext, live, lower0, r, Derivation.Below(children, x))
      {
        if x in children {
          HangHigher(x, r, parents, live, lower0, Derivation.Below(children, x));
          assert Derivation.Below(children, x + 1) == Derivation.Below(children, x) + {x};
        } else {
          assert Derivation.Below(children, x + 1) == Derivation.Below(children, x);
        }
      }
      assert Derivation.Below(children, |ext|) == children;
      PartlyIsRemoved(ext, live, lower0, upper, r);
      RemoveConcept(r);
    }

    // ---- the result ----

    /** The living concepts numbered without gaps, their labels, and the edges from child to
        parent. */
    method ToFlat() returns (ghost ids: seq<nat>, rexts: seq<set<nat>>, rints: seq<set<nat>>, edges: seq<(nat, nat)>)
      requires Valid() && LiveHasse(ext, Live(), lower)
      ensures NoRepeats(ids) && ToSet(ids) == Live() && |rexts| == |rints| == |ids|
      ensures forall i: nat | i < |ids| :: ids[i] < |ext| && rexts[i] == rext[ids[i]] && rints[i] == rint[ids[i]]
      ensures ChildToParent(lower, ids, edges) && forall i, j | 0 <= i < j < |edges| :: edges[i] != edges[j]
    {
      hide LiveHasse, Mirrored, ChildToParent;
      var newid;
      newid, ids, rexts, rints := NumberLiving();
      edges := ListEdges(newid, ids);
    }

    /** The living concepts numbered in order. */
    method NumberLiving() returns (newid: seq<nat>, ghost ids: seq<nat>, rexts: seq<set<nat>>, rints: seq<set<nat>>)
      requires Valid()
      ensures Numbering(newid, ids) && |rexts| == |rints| == |ids|
      ensures forall i: nat | i < |ids| :: ids[i] < |ext| && rexts[i] == rext[ids[i]] && rints[i] == rint[ids[i]]
    {
      hide Mirrored;
      newid, ids, rexts, rints := [], [], [], [];
      for c := 0 to |ext|
        invariant |newid| == c && |rexts| == |rints| == |ids| && NoRepeats(ids)
        invariant forall i | 0 <= i < |ids| ::
            ids[i] < c && newid[ids[i]] == i && rexts[i] == rext[ids[i]] && rints[i] == rint[ids[i]]
        invariant forall v: nat | v < c && alive[v] :: newid[v] < |ids| && ids[newid[v]] == v
        invariant forall i | 0 <= i < |ids| :: alive[ids[i]]
      {
        newid := newid + [|rexts|];
        if alive[c] {
          ids, rexts, rints := ids + [c], rexts + [rext[c]], rints + [rint[c]];
        }
      }
      forall v: nat ensures v in ids <==> v in Live() {
        if v in Live() { assert ids[newid[v]] == v; }
      }
    }

    /** Every living concept has its place. */
    ghost predicate Numbering(newid: seq<nat>, ids: seq<nat>)
      reads this
    {
      && NoRepeats(ids) && ToSet(ids) == Live() && |newid| == |ext|
      && forall v: nat | v in Live() :: v < |ext| && newid[v] < |ids| && ids[newid[v]] == v
    }

    /** The edges from child to parent, by the numbers. */
    method ListEdges(newid: seq<nat>, ghost ids: seq<nat>) returns (edges: seq<(nat, nat)>)
      requires Valid() && LiveHasse(ext, Live(), lower) && Numbering(newid, ids)
      ensures ChildToParent(lower, ids, edges) && forall i, j | 0 <= i < j < |edges| :: edges[i] != edges[j]
    {
      EdgesAlive(ext, Live(), lower, upper);
      IdsInRange(ids, Live(), |ext|);
      hide LiveHasse, Mirrored, NoRepeats, ToSet, ChildToParent, EdgesUpTo;
      edges := [];
      NoEdgesYet(lower, ids);
      for c := 0 to |ext|
        invariant EdgesUpTo(lower, ids, edges, c, 0) && forall i, j | 0 <= i < j < |edges| :: edges[i] != edges[j]
      {
        NextRow(lower, ids, edges, c, alive[c], |ext|);
        if alive[c] {
          for u := 0 to |ext|
            invariant EdgesUpTo(lower, ids, edges, c, u) && forall i, j | 0 <= i < j < |edges| :: edges[i] != edges[j]
          {
            if u in upper[c] {
              NextEdge(lower, ids, edges, c, u, newid[c], newid[u]);
              edges := edges + [(newid[c], newid[u])];
            } else {
              NoEdge(lower, ids, edges, c, u);
            }
          }
          NextRow(lower, ids, edges, c, alive[c], |ext|);
        }
      }
      AllEdges(lower, ids, edges, |ext|);
    }
  }

  /** The edges of the numbered concepts. */
  ghost predicate ChildToParent(lower: seq<set<nat>>, ids: seq<nat>, edges: seq<(nat, nat)>) {
    forall i: nat, j: nat :: (i, j) in edges <==> i < |ids| && j < |ids| && ids[j] < |lower| && ids[i] in lower[ids[j]]
  }

  /** So far the edges up from concepts before c, and from c to those before u. */
  ghost predicate EdgesUpTo(lower: seq<set<nat>>, ids: seq<nat>, edges: seq<(nat, nat)>, c: nat, u: nat) {
    forall i: nat, j: nat :: (i, j) in edges <==>
      i < |ids| && j < |ids| && ids[j] < |lower| && ids[i] in lower[ids[j]]
        && (ids[i] < c || (ids[i] == c && ids[j] < u))
  }

  lemma EdgesAlive(ext: seq<set<nat>>, live: set<nat>, lower: seq<set<nat>>, upper: seq<set<nat>>)
    requires LiveHasse(ext, live, lower) && Mirrored(lower, upper)
    ensures |upper| == |lower| == |ext|
    ensures forall c, u | 0 <= c < |ext| && u in upper[c] :: u in live && u < |ext|
    ensures forall c, u: nat | 0 <= c < |ext| && u < |ext| :: u in upper[c] <==> c in lower[u]
  {
    forall c, u | 0 <= c < |ext| && u in upper[c] ensures u in live && u < |ext| {
      assert c in lower[u] && lower[u] == LowerOf(ext, live, u);
    }
  }

  lemma IdsInRange(ids: seq<nat>, live: set<nat>, n: nat)
    requires ToSet(ids) == live && live <= Range(n)
    ensures forall i | 0 <= i < |ids| :: ids[i] < n
    ensures forall c: nat :: c in ids <==> c in live
  {
    assert forall i | 0 <= i < |ids| :: ids[i] in ToSet(ids);
  }

  lemma NoEdgesYet(lower: seq<set<nat>>, ids: seq<nat>)
    ensures EdgesUpTo(lower, ids, [], 0, 0)
  {}

  lemma NextRow(lower: seq<set<nat>>, ids: seq<nat>, edges: seq<(nat, nat)>, c: nat, alive: bool, n: nat)
    requires |lower| == n && alive == (c in ids)
    ensures !alive && EdgesUpTo(lower, ids, edges, c, 0) ==> EdgesUpTo(lower, ids, edges, c + 1, 0)
    ensures EdgesUpTo(lower, ids, edges, c, n) ==> EdgesUpTo(lower, ids, edges, c + 1, 0)
  {}

  lemma NextEdge(lower: seq<set<nat>>, ids: seq<nat>, edges: seq<(nat, nat)>, c: nat, u: nat, i: nat, j: nat)
    requires EdgesUpTo(lower, ids, edges, c, u) && NoRepeats(ids) && u < |lower| && c in lower[u]
    requires i < |ids| && j < |ids| && ids[i] == c && ids[j] == u
    ensures EdgesUpTo(lower, ids, edges + [(i, j)], c, u + 1) && (i, j) !in edges
  {}

  lemma NoEdge(lower: seq<set<nat>>, ids: seq<nat>, edges: seq<(nat, nat)>, c: nat, u: nat)
    requires EdgesUpTo(lower, ids, edges, c, u) && (u < |lower| ==> c !in lower[u])
    ensures EdgesUpTo(lower, ids, edges, c, u + 1)
  {}

  lemma AllEdges(lower: seq<set<nat>>, ids: seq<nat>, edges: seq<(nat, nat)>, n: nat)
    requires EdgesUpTo(lower, ids, edges, n, 0) && forall i | 0 <= i < |ids| :: ids[i] < n
    ensures ChildToParent(lower, ids, edges)
  {}

  ghost function SelectedBelow(ext: seq<set<nat>>, selected: set<nat>, c: nat): set<nat>
    requires c < |ext|
  {
    set w | w in selected && w < |ext| && ext[w] < ext[c]
  }

  /** Some set of the selection strictly contains that of v. */
  ghost predicate BelowSome(ext: seq<set<nat>>, sel: set<nat>, v: nat) {
    exists s :: s in sel && s < |ext| && v < |ext| && ext[v] < ext[s]
  }

  ghost predicate NoneAbove(ext: seq<set<nat>>, sel: set<nat>, v: nat) {
    !BelowSome(ext, sel, v)
  }

  /** A list taken in another order. */
  lemma PlacesPermute(list: seq<nat>, places: seq<nat>, order: seq<nat>)
    requires NoRepeats(list) && NoRepeats(places) && |order| == |places|
    requires forall i: nat | i < |list| :: i in places
    requires forall p | 0 <= p < |places| :: places[p] < |list| && order[p] == list[places[p]]
    ensures NoRepeats(order) && ToSet(order) == ToSet(list)
  {
    forall c ensures c in order <==> c in list {
      if c in list {
        var i: nat :| i < |list| && list[i] == c;
        assert i in places;
        var p :| 0 <= p < |places| && places[p] == i;
        assert order[p] == c;
      }
    }
    forall p, q | 0 <= p < q < |order| ensures order[p] != order[q] {
      assert places[p] != places[q];
    }
  }

  lemma AloneIsMaximal(ext: seq<set<nat>>, list: seq<nat>)
    requires |list| == 1
    ensures NoRepeats(list) && NoneAbove(ext, ToSet(list), list[0])
  {}

  lemma MarkedIsDominated(ext: seq<set<nat>>, live: set<nat>, sel: set<nat>, v: nat)
    requires v in sel && sel <= live
    ensures NoneAbove(ext, sel, v) <==> !(v in live && BelowSome(ext, sel, v))
  {}

  /** Going down from a living concept one meets those with smaller extents among the living,
      and never comes back. */
  ghost predicate Navigable(ext: seq<set<nat>>, live: set<nat>, lower: seq<set<nat>>) {
    && |lower| == |ext| && live <= Range(|ext|) && WellFormed(lower)
    && (forall p, c | p in live && c in live :: Reach(lower, p, c) <==> c == p || ext[c] < ext[p])
    && forall p, w | p in live && w in lower[p] :: !Reach(lower, w, p)
  }

  lemma InRange(ext: seq<set<nat>>, live: set<nat>, lower: seq<set<nat>>)
    requires Navigable(ext, live, lower)
    ensures live <= Range(|ext|) && |lower| == |ext| && WellFormed(lower)
      && forall s | 0 <= s < |lower| :: lower[s] <= Range(|lower|)
  {}

  lemma Descends(ext: seq<set<nat>>, live: set<nat>, lower: seq<set<nat>>, p: nat, c: nat)
    requires Navigable(ext, live, lower) && p in live && c in live
    ensures p < |ext| && c < |ext| && (Reach(lower, p, c) <==> c == p || ext[c] < ext[p])
  {}

  lemma NoWayBack(ext: seq<set<nat>>, live: set<nat>, lower: seq<set<nat>>, p: nat, w: nat)
    requires Navigable(ext, live, lower) && p in live && p < |lower| && w in lower[p]
    ensures !Reach(lower, w, p)
  {}

  lemma HasseNavigable(ext: seq<set<nat>>, live: set<nat>, lower: seq<set<nat>>, upper: seq<set<nat>>)
    requires LiveHasse(ext, live, lower) && Mirrored(lower, upper)
    ensures Navigable(ext, live, lower)
  {
    hide Reach;
    forall p, c | p in live && c in live ensures Reach(lower, p, c) <==> c == p || ext[c] < ext[p] {
      ReachDown(ext, live, lower, upper, p, c);
    }
    forall p, w | p in live && w in lower[p] ensures !Reach(lower, w, p) {
      assert w in LowerOf(ext, live, p);
      ReachDown(ext, live, lower, upper, w, p);
    }
  }

  /** A concept without covers hung below c leads nowhere. */
  lemma NavigableWithLeaf(ext: seq<set<nat>>, live: set<nat>, lower: seq<set<nat>>, c: nat, n: nat)
    requires Navigable(ext, live, lower) && c in live && c < |ext| && n < |ext| && n !in live && lower[n] == {}
    ensures Navigable(ext, live, lower[c := lower[c] + {n}])
  {
    var lower' := lower[c := lower[c] + {n}];
    forall p: nat, v: nat | v != n ensures Reach(lower', p, v) <==> Reach(lower, p, v) {
      ReachWithLeaf(lower, c, n, p, v);
    }
    assert n != c ==> Closed(lower', {n});
    hide Reach;
  }

  /** One more concept without edges. */
  lemma NavigableGrown(ext: seq<set<nat>>, live: set<nat>, lower: seq<set<nat>>, e: set<nat>)
    requires Navigable(ext, live, lower)
    ensures Navigable(ext + [e], live, lower + [{}])
  {
    forall s: set<nat> ensures Closed(lower + [{}], s) <==> Closed(lower, s) {
      if Closed(lower + [{}], s) {
        assert forall u | u in s && u < |lower| :: (lower + [{}])[u] == lower[u];
      }
    }
    SameClosedSameReach(lower, lower + [{}]);
    hide Reach;
    assert forall p | p in live :: p < |lower| && (lower + [{}])[p] == lower[p];
  }

  lemma SameClosedSameReach(g: Graph, g': Graph)
    requires forall s: set<nat> :: Closed(g', s) <==> Closed(g, s)
    ensures forall u, v :: Reach(g', u, v) <==> Reach(g, u, v)
  {}

  lemma ReachWithLeaf(lower: Graph, c: nat, n: nat, p: nat, v: nat)
    requires c < |lower| && n < |lower| && n != c && lower[n] == {} && v != n
    ensures Reach(lower[c := lower[c] + {n}], p, v) <==> Reach(lower, p, v)
  {
    var lower' := lower[c := lower[c] + {n}];
    if Reach(lower', p, v) {
      forall s: set<nat> | p in s && Closed(lower, s) ensures v in s {
        assert Closed(lower', s + {n});
      }
    }
    if Reach(lower, p, v) {
      forall s: set<nat> | p in s && Closed(lower', s) ensures v in s {
        assert Closed(lower, s);
      }
    }
  }

  /** The covers of the selection, and what is reached from them, are what lies strictly
      below. */
  lemma StrictlyBelowIsReached(ext: seq<set<nat>>, live: set<nat>, lower: seq<set<nat>>, sel: set<nat>,
                               start: set<nat>, v: nat)
    requires Navigable(ext, live, lower) && sel <= live && v in live
    requires forall w :: w in start <==> exists s :: s in sel && s < |lower| && w in lower[s]
    ensures ReachFrom(lower, start, v) <==> BelowSome(ext, sel, v)
  {
    InRange(ext, live, lower);
    hide Reach, Navigable;
    if ReachFrom(lower, start, v) {
      var w :| w in start && Reach(lower, w, v);
      var s :| s in sel && s < |lower| && w in lower[s];
      ReachEdge(lower, s, w);
      ReachTransitive(lower, s, w, v);
      NoWayBack(ext, live, lower, s, w);
      Descends(ext, live, lower, s, v);
    }
    if BelowSome(ext, sel, v) {
      var s :| s in sel && s < |ext| && v < |ext| && ext[v] < ext[s];
      Descends(ext, live, lower, s, v);
      if v in lower[s] {
        Descends(ext, live, lower, v, v);
        assert v in start;
      } else {
        var w := StepTowards(lower, s, v);
      }
    }
  }

  // ---- removal ----

  /** The edges when r is cut off and the children `kids` have been hung higher. */
  ghost function Partly(ext: seq<set<nat>>, live: set<nat>, lower: seq<set<nat>>, r: nat,
                        kids: set<nat>): (s: seq<set<nat>>)
    requires |lower| == |ext| && r < |ext|
    ensures |s| == |lower|
    ensures forall p | 0 <= p < |s| :: s[p] == if p == r then {} else if r in lower[p]
      then lower[p] - {r} + (set x | x in kids && !Bypass(ext, live, r, x, p)) else lower[p]
  {
    seq(|lower|, p requires 0 <= p < |lower| => if p == r then {} else if r in lower[p]
      then lower[p] - {r} + (set x | x in kids && !Bypass(ext, live, r, x, p)) else lower[p])
  }

  /** The children of a concept are all maximal among themselves and its parents all minimal:
      selecting the maxima and the minima first would leave them as they are. */
  lemma CoversAreAntichains(ext: seq<set<nat>>, live: set<nat>, lower: seq<set<nat>>, r: nat)
    requires LiveHasse(ext, live, lower) && r < |ext|
    ensures forall c | c in lower[r] :: NoneAbove(ext, lower[r], c)
    ensures forall p, q | 0 <= p < |ext| && 0 <= q < |ext| && r in lower[p] && r in lower[q] :: !(ext[q] < ext[p])
  {
    forall c | c in lower[r] ensures NoneAbove(ext, lower[r], c) {
      assert c in LowerOf(ext, live, r);
      forall s | s in lower[r] && s < |ext| ensures !(ext[c] < ext[s]) {
        assert s in LowerOf(ext, live, r);
      }
    }
    forall p, q | 0 <= p < |ext| && 0 <= q < |ext| && r in lower[p] && r in lower[q] ensures !(ext[q] < ext[p]) {
      assert r in LowerOf(ext, live, p) && r in LowerOf(ext, live, q);
    }
  }

  lemma NoKids(ext: seq<set<nat>>, live: set<nat>, lower0: seq<set<nat>>, r: nat, lower: seq<set<nat>>)
    requires |lower0| == |ext| == |lower| && r < |ext|
    requires forall p | 0 <= p < |ext| :: lower[p] == if p == r then {} else lower0[p] - {r}
    ensures lower == Partly(ext, live, lower0, r, {})
  {
    hide Bypass;
    var part := Partly(ext, live, lower0, r, {});
    forall p | 0 <= p < |ext| ensures lower[p] == part[p] {
      assert forall x :: x in lower[p] <==> x in part[p];
    }
  }

  lemma OneMoreKid(ext: seq<set<nat>>, live: set<nat>, lower0: seq<set<nat>>, r: nat, kids: set<nat>, x: nat,
                   parents: set<nat>, marks: set<nat>, lower: seq<set<nat>>, lower': seq<set<nat>>)
    requires |lower0| == |ext| == |lower'| && r < |ext| && lower == Partly(ext, live, lower0, r, kids)
      && r !in lower0[r]
    requires forall p: nat :: p in parents <==> p < |ext| && r in lower0[p]
    requires forall p | p in parents :: p in marks <==> Bypass(ext, live, r, x, p)
    requires forall p | 0 <= p < |ext| :: lower'[p] == lower[p] + (if p in parents && p !in marks then {x} else {})
    ensures lower' == Partly(ext, live, lower0, r, kids + {x})
  {
    hide Bypass;
    assert r !in parents;
    var part := Partly(ext, live, lower0, r, kids + {x});
    forall p | 0 <= p < |ext| ensures lower'[p] == part[p] {
      assert forall y :: y in lower'[p] <==> y in part[p];
    }
  }

  lemma NotBelowItself(ext: seq<set<nat>>, live: set<nat>, lower: seq<set<nat>>, r: nat)
    requires LiveHasse(ext, live, lower) && r < |ext|
    ensures r !in lower[r]
  {}

  lemma CoversInRange(ext: seq<set<nat>>, live: set<nat>, lower: seq<set<nat>>, r: nat)
    requires LiveHasse(ext, live, lower) && r < |ext|
    ensures |lower| == |ext| && forall x | x in lower[r] :: x < |ext|
  {}

  lemma PartlyIsRemoved(ext: seq<set<nat>>, live: set<nat>, lower0: seq<set<nat>>, upper: seq<set<nat>>, r: nat)
    requires LiveHasse(ext, live, lower0) && r < |ext|
    requires Mirrored(Partly(ext, live, lower0, r, lower0[r]), upper)
    ensures Partly(ext, live, lower0, r, lower0[r]) == Removed(ext, live, lower0, r)
    ensures Removed(ext, live, lower0, r)[r] == {} == upper[r]
  {
    var lower := Partly(ext, live, lower0, r, lower0[r]);
    NotBelowItself(ext, live, lower0, r);
    assert lower == Removed(ext, live, lower0, r);
    assert forall p | p in upper[r] :: r in lower[p];
  }

  lemma EdgeRises(ext: seq<set<nat>>, live: set<nat>, lower0: seq<set<nat>>, r: nat, kids: set<nat>, z: nat, w: nat)
    requires LiveHasse(ext, live, lower0) && r < |ext| && kids <= lower0[r] && w < |ext|
    requires z in Partly(ext, live, lower0, r, kids)[w]
    ensures w in live && z in live && z < |ext| && ext[z] < ext[w] && w != r
    ensures z !in kids ==> IsCover(ext, live, z, w)
  {
    assert lower0[w] == LowerOf(ext, live, w) && lower0[r] == LowerOf(ext, live, r);
    if z in kids && r in lower0[w] { Chain(ext[z], ext[r], ext[w]); }
  }

  lemma ReachRises(ext: seq<set<nat>>, live: set<nat>, lower0: seq<set<nat>>, lower: seq<set<nat>>,
                   upper: seq<set<nat>>,
                   r: nat, kids: set<nat>, y: nat, p: nat)
    requires LiveHasse(ext, live, lower0) && r < |ext| && kids <= lower0[r] && y < |ext|
    requires lower == Partly(ext, live, lower0, r, kids) && Mirrored(lower, upper) && Reach(upper, y, p)
    ensures p < |ext| && (p == y || ext[y] < ext[p])
  {
    var s := set z: nat | z < |ext| && (z == y || ext[y] < ext[z]);
    forall z, w | z in s && w in upper[z] ensures w in s {
      assert z in lower[w];
      EdgeRises(ext, live, lower0, r, kids, z, w);
    }
    assert Closed(upper, s);
  }

  lemma CoversStay(ext: seq<set<nat>>, live: set<nat>, lower0: seq<set<nat>>, lower: seq<set<nat>>,
                   upper: seq<set<nat>>,
                   r: nat, kids: set<nat>)
    requires LiveHasse(ext, live, lower0) && r < |ext|
    requires lower == Partly(ext, live, lower0, r, kids) && Mirrored(lower, upper)
    ensures |upper| == |ext| && live <= Range(|ext|)
    ensures forall x, y | x in live && y in live && x != r && y != r && x < |upper|
      && IsCover(ext, live, x, y) :: y in upper[x]
  {
    forall x, y | x in live && y in live && x != r && y != r && x < |upper| && IsCover(ext, live, x, y)
      ensures y in upper[x] {
      assert x in LowerOf(ext, live, y) && lower0[y] == LowerOf(ext, live, y);
      assert x in lower[y];
    }
  }

  /** A child that has not been hung higher reaches a parent exactly when something besides r
      lies in between. */
  lemma BypassIsReached(ext: seq<set<nat>>, live: set<nat>, lower0: seq<set<nat>>, lower: seq<set<nat>>,
                        upper: seq<set<nat>>,
                        r: nat, kids: set<nat>, x: nat, p: nat)
    requires LiveHasse(ext, live, lower0) && r < |ext| && kids <= lower0[r] && x in lower0[r] && x !in kids
    requires p < |ext| && r in lower0[p]
    requires lower == Partly(ext, live, lower0, r, kids) && Mirrored(lower, upper)
    ensures x < |ext| && x !in lower[p]
    ensures Reach(upper, x, p) <==> Bypass(ext, live, r, x, p)
  {
    assert x in LowerOf(ext, live, r) && r in LowerOf(ext, live, p);
    Chain(ext[x], ext[r], ext[p]);
    if x in lower[p] { EdgeRises(ext, live, lower0, r, kids, x, p); }
    if Reach(upper, x, p) {
      ReachBypasses(ext, live, lower0, lower, upper, r, kids, x, p);
    }
    if Bypass(ext, live, r, x, p) {
      var k :| k in live && k != r && k < |ext| && ext[x] < ext[k] < ext[p];
      CoversStay(ext, live, lower0, lower, upper, r, kids);
      UpAvoiding(ext, live, upper, r, x, k);
      UpAvoiding(ext, live, upper, r, k, p);
      ReachTransitive(upper, x, k, p);
    }
  }

  lemma ReachBypasses(ext: seq<set<nat>>, live: set<nat>, lower0: seq<set<nat>>, lower: seq<set<nat>>,
                      upper: seq<set<nat>>,
                      r: nat, kids: set<nat>, x: nat, p: nat)
    requires LiveHasse(ext, live, lower0) && r < |ext| && kids <= lower0[r] && x in lower0[r] && x !in kids
    requires p < |ext| && r in lower0[p] && x < |ext| && x != p
    requires lower == Partly(ext, live, lower0, r, kids) && Mirrored(lower, upper) && x !in lower[p]
      && Reach(upper, x, p)
    ensures Bypass(ext, live, r, x, p)
  {
    assert p !in upper[x];
    var y := StepTowards(upper, x, p);
    assert x in lower[y];
    EdgeRises(ext, live, lower0, r, kids, x, y);
    ReachRises(ext, live, lower0, lower, upper, r, kids, y, p);
  }
}
