/** Going through a list of implications once, in order. */
module Sweeps {
  import opened FormalContext
  import opened Implications

  /** What s becomes when each implication in turn is applied, once. */
  function Sweep(l: seq<Implication>, s: set<nat>): set<nat> {
    if l == [] then s
    else
      var r := Sweep(l[..|l| - 1], s);
      var last := l[|l| - 1];
      if last.premise <= r then r + last.closure else r
  }

  /** One sweep reaches the closure of every attribute set: no iteration is needed. */
  ghost predicate OrderedDirect(ctx: Context, l: seq<Implication>) {
    forall s: set<nat> | s <= ctx.Attributes() :: Sweep(l, s) == ctx.Closure(s)
  }

  lemma {:induction false} SweepConcat(l: seq<Implication>, r: seq<Implication>, s: set<nat>)
    ensures Sweep(l + r, s) == Sweep(r, Sweep(l, s))
  {
    if r == [] {
      assert l + r == l;
    } else {
      assert (l + r)[..|l + r| - 1] == l + r[..|r| - 1];
      SweepConcat(l, r[..|r| - 1], s);
    }
  }

  lemma {:induction false} SweepPrefix(l: seq<Implication>, k: nat, s: set<nat>)
    requires k <= |l|
    ensures s <= Sweep(l[..k], s) <= Sweep(l, s)
  {
    if k < |l| {
      SweepPrefix(l[..|l| - 1], k, s);
      assert l[..|l| - 1][..k] == l[..k];
    } else {
      assert l[..k] == l;
      if l != [] { SweepPrefix(l[..|l| - 1], |l| - 1, s); }
    }
  }

  /** A sweep stays within every set that respects the list. */
  lemma {:induction false} SweepWithin(l: seq<Implication>, s: set<nat>, x: set<nat>)
    requires s <= x && Respects(l, x)
    ensures Sweep(l, s) <= x
  {
    if l != [] {
      var rest := l[..|l| - 1];
      assert forall i | 0 <= i < |rest| :: rest[i] == l[i];
      SweepWithin(rest, s, x);
    }
  }

  /** An implication whose premise is there in time fires. */
  lemma SweepFires(l: seq<Implication>, i: nat, s: set<nat>)
    requires i < |l| && l[i].premise <= Sweep(l[..i], s)
    ensures l[i].closure <= Sweep(l, s)
  {
    SweepPrefix(l, i + 1, s);
    assert l[..i + 1][..i] == l[..i];
  }

  /** What a sweep adds from position i on, some implication from there on concludes. */
  lemma {:induction false} SweepAdds(l: seq<Implication>, i: nat, s: set<nat>, x: nat)
    requires i <= |l| && x in Sweep(l, s) && x !in Sweep(l[..i], s)
    ensures exists j :: i <= j < |l| && x in l[j].closure
  {
    assert l[..|l|] == l;
    if i < |l| {
      var rest := l[..|l| - 1];
      if x in Sweep(rest, s) {
        assert rest[..i] == l[..i];
        SweepAdds(rest, i, s, x);
        var j :| i <= j < |rest| && x in rest[j].closure;
        assert x in l[j].closure;
      } else {
        assert x in l[|l| - 1].closure;
      }
    }
  }

  /** If nothing from position i on concludes an attribute of its premise, implication i
      holds in the result. */
  lemma SweepSettles(l: seq<Implication>, i: nat, s: set<nat>)
    requires i < |l| && forall j | i <= j < |l| :: l[j].closure !! l[i].premise
    ensures l[i].premise <= Sweep(l, s) ==> l[i].closure <= Sweep(l, s)
  {
    if l[i].premise <= Sweep(l, s) {
      forall x | x in l[i].premise ensures x in Sweep(l[..i], s) {
        if x !in Sweep(l[..i], s) {
          SweepAdds(l, i, s, x);
        }
      }
      SweepFires(l, i, s);
    }
  }

  /** A list that is sound and direct is complete. */
  lemma DirectIsComplete(ctx: Context, l: seq<Implication>)
    requires OrderedDirect(ctx, l)
    ensures Complete(ctx, l)
  {
    forall x: set<nat> | x <= ctx.Attributes() && Respects(l, x) ensures ctx.Closure(x) == x {
      SweepWithin(l, x, x);
      SweepPrefix(l, 0, x);
    }
  }
}
