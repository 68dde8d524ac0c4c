/** Maxmod partitions: elements are split by one criterion after the other, those that meet it
    first. */
module MaxMod {
  import opened FiniteSets
  import Derivation

  /** u and w meet the same among the first m criteria. */
  ghost predicate Agree(crit: seq<set<nat>>, m: nat, u: nat, w: nat)
    requires m <= |crit|
  {
    forall l | 0 <= l < m :: u in crit[l] <==> w in crit[l]
  }

  /** The first criterion that tells them apart is met by u. */
  ghost predicate LexBefore(crit: seq<set<nat>>, u: nat, w: nat) {
    exists m :: 0 <= m < |crit| && u in crit[m] && w !in crit[m] && Agree(crit, m, u, w)
  }

  ghost predicate InBlock(part: seq<set<nat>>, x: nat) {
    exists b :: 0 <= b < |part| && x in part[b]
  }

  /** Blocks hold what no criterion tells apart, and come in lexicographic order. */
  ghost predicate IsPartition(part: seq<set<nat>>, crit: seq<set<nat>>, n: nat) {
    && (forall b | 0 <= b < |part| :: part[b] != {} && part[b] <= Range(n))
    && (forall x: nat | x < n :: InBlock(part, x))
    && (forall b, u, w | 0 <= b < |part| && u in part[b] && w in part[b] :: Agree(crit, |crit|, u, w))
    && forall b, c, u, w | 0 <= b < c < |part| && u in part[b] && w in part[c] :: LexBefore(crit, u, w)
  }

  lemma AgreeMore(crit: seq<set<nat>>, r: set<nat>, u: nat, w: nat)
    requires Agree(crit, |crit|, u, w)
    ensures (u in r <==> w in r) ==> Agree(crit + [r], |crit| + 1, u, w)
    ensures u in r && w !in r ==> LexBefore(crit + [r], u, w)
  {
    if u in r && w !in r {
      assert Agree(crit + [r], |crit|, u, w);
      assert (crit + [r])[|crit|] == r;
    }
  }

  lemma LexMore(crit: seq<set<nat>>, r: set<nat>, u: nat, w: nat)
    requires LexBefore(crit, u, w)
    ensures LexBefore(crit + [r], u, w)
  {
    var m :| 0 <= m < |crit| && u in crit[m] && w !in crit[m] && Agree(crit, m, u, w);
    assert (crit + [r])[m] == crit[m] && Agree(crit + [r], m, u, w);
  }

  ghost predicate Uniform(r: set<nat>, k: set<nat>) {
    forall u, w | u in k && w in k :: u in r <==> w in r
  }

  ghost predicate Parted(r: set<nat>, k: set<nat>, l: set<nat>) {
    k <= r && l !! r
  }

  /** New blocks come from the old ones in order, each old one giving what meets r before what
      does not. */
  ghost predicate Refining(part: seq<set<nat>>, r: set<nat>, n: nat, fine: seq<set<nat>>, source: seq<nat>) {
    && |source| == |fine| && n <= |part|
    && (forall b | 0 <= b < |fine| ::
      source[b] < n && fine[b] != {} && fine[b] <= part[source[b]] && Uniform(r, fine[b]))
    && (forall b, c | 0 <= b < c < |fine| ::
      source[b] <= source[c] && (source[b] == source[c] ==> Parted(r, fine[b], fine[c])))
    && forall s, x | 0 <= s < n && x in part[s] :: InBlock(fine, x)
  }

  lemma RefinedIsPartition(part: seq<set<nat>>, crit: seq<set<nat>>, n: nat, r: set<nat>, fine: seq<set<nat>>,
                           source: seq<nat>)
    requires IsPartition(part, crit, n) && Refining(part, r, |part|, fine, source)
    ensures IsPartition(fine, crit + [r], n)
  {
    hide Agree, LexBefore;
    forall b, u, w | 0 <= b < |fine| && u in fine[b] && w in fine[b] ensures Agree(crit + [r], |crit + [r]|, u, w) {
      assert u in part[source[b]] && w in part[source[b]];
      AgreeMore(crit, r, u, w);
    }
    forall b, c, u, w | 0 <= b < c < |fine| && u in fine[b] && w in fine[c] ensures LexBefore(crit + [r], u, w) {
      assert u in part[source[b]] && w in part[source[c]];
      if source[b] == source[c] { assert Parted(r, fine[b], fine[c]); AgreeMore(crit, r, u, w); }
        else { LexMore(crit, r, u, w); }
    }
    forall x: nat | x < n ensures InBlock(fine, x) {
      assert InBlock(part, x);
      var b :| 0 <= b < |part| && x in part[b];
    }
  }

  /** The blocks of one old block. */
  ghost predicate Pieces(k: set<nat>, r: set<nat>, pieces: seq<set<nat>>) {
    && (forall b | 0 <= b < |pieces| :: pieces[b] != {} && pieces[b] <= k && Uniform(r, pieces[b]))
    && (forall b, c | 0 <= b < c < |pieces| :: Parted(r, pieces[b], pieces[c]))
    && forall x | x in k :: InBlock(pieces, x)
  }

  lemma InEither(s: seq<set<nat>>, t: seq<set<nat>>, x: nat)
    requires InBlock(s, x) || InBlock(t, x)
    ensures InBlock(s + t, x)
  {
    if InBlock(s, x) {
      var b :| 0 <= b < |s| && x in s[b];
      assert (s + t)[b] == s[b];
    } else {
      var b :| 0 <= b < |t| && x in t[b];
      assert (s + t)[|s| + b] == t[b];
    }
  }

  lemma RefineOne(part: seq<set<nat>>, r: set<nat>, n: nat, fine: seq<set<nat>>, source: seq<nat>,
                  pieces: seq<set<nat>>)
    requires n < |part| && Refining(part, r, n, fine, source) && Pieces(part[n], r, pieces)
    ensures Refining(part, r, n + 1, fine + pieces, source + seq(|pieces|, i => n))
  {
    hide Uniform, Parted, InBlock;
    forall s, x | 0 <= s < n + 1 && x in part[s] ensures InBlock(fine + pieces, x) {
      InEither(fine, pieces, x);
    }
  }

  lemma NothingRefined(part: seq<set<nat>>, r: set<nat>)
    ensures Refining(part, r, 0, [], [])
  {}

  lemma AtMostOne(k: set<nat>, u: nat, w: nat)
    requires |k| <= 1 && u in k && w in k
    ensures u == w
  {
    if u != w { SubsetCard({u, w}, k); }
  }

  /** Splits every block of more than one element by r. */
  method Refine(part: seq<set<nat>>, r: set<nat>, ghost crit: seq<set<nat>>, ghost n: nat) returns (fine: seq<set<nat>>)
    requires IsPartition(part, crit, n)
    ensures IsPartition(fine, crit + [r], n)
  {
    fine := [];
    ghost var source: seq<nat> := [];
    assert forall b | 0 <= b < |part| :: part[b] != {};
    NothingRefined(part, r);
    hide IsPartition, Pieces, Refining;
    for j := 0 to |part|
      invariant Refining(part, r, j, fine, source)
    {
      var pieces := Split(part[j], r);
      RefineOne(part, r, j, fine, source, pieces);
      fine, source := fine + pieces, source + seq(|pieces|, i => j);
    }
    RefinedIsPartition(part, crit, n, r, fine, source);
  }

  method Split(k: set<nat>, r: set<nat>) returns (pieces: seq<set<nat>>)
    requires k != {}
    ensures Pieces(k, r, pieces)
  {
    if |k| > 1 {
      var k1, k2 := k * r, k - r;
      pieces := if k1 != {} then [k1] else [];
      if k2 != {} {
        pieces := pieces + [k2];
      }
      forall x | x in k ensures InBlock(pieces, x) {
        assert x in k1 || x in k2;
        assert x in k1 ==> pieces[0] == k1;
        assert x in k2 ==> pieces[|pieces| - 1] == k2;
      }
    } else {
      pieces := [k];
      forall u, w | u in k && w in k ensures u == w {
        AtMostOne(k, u, w);
      }
      assert forall x | x in k :: x in pieces[0];
    }
  }

  lemma OneBlockPartition(n: nat)
    requires n > 0
    ensures IsPartition([Range(n)], [], n)
  {
    assert 0 in Range(n);
    forall x: nat | x < n ensures InBlock([Range(n)], x) {
      assert x in [Range(n)][0];
    }
  }

  /** The objects by the columns, in order. */
  method PartitionOA(cols: seq<set<nat>>, n: nat) returns (part: seq<set<nat>>)
    requires n > 0
    ensures IsPartition(part, cols, n)
  {
    hide IsPartition;
    OneBlockPartition(n);
    part := [Range(n)];
    assert cols[..0] == [];
    for a := 0 to |cols|
      invariant IsPartition(part, cols[..a], n)
    {
      assert cols[..a + 1] == cols[..a] + [cols[a]];
      part := Refine(part, cols[a], cols[..a], n);
    }
    assert cols[..|cols|] == cols;
  }

  /** The attributes by the rows of the first objects of the blocks, from the last block to
      the first. */
  method PartitionAO(rows: seq<set<nat>>, blocks: seq<set<nat>>, n: nat)
      returns (part: seq<set<nat>>, ghost crit: seq<set<nat>>)
    requires n > 0 && forall b | 0 <= b < |blocks| :: blocks[b] != {} && blocks[b] <= Range(|rows|)
    ensures |crit| == |blocks| && IsPartition(part, crit, n)
    ensures forall k | 0 <= k < |blocks| :: IsRowOf(rows, blocks[|blocks| - 1 - k], crit[k])
  {
    hide IsPartition;
    OneBlockPartition(n);
    part, crit := [Range(n)], [];
    for i := |blocks| downto 0
      invariant |crit| == |blocks| - i && IsPartition(part, crit, n)
      invariant forall k | 0 <= k < |crit| :: IsRowOf(rows, blocks[|blocks| - 1 - k], crit[k])
    {
      var x := Derivation.FirstIn(blocks[i], |rows|);
      part := Refine(part, rows[x], crit, n);
      crit := crit + [rows[x]];
    }
  }

  /** r is the row of some object of the block. */
  ghost predicate IsRowOf(rows: seq<set<nat>>, block: set<nat>, r: set<nat>) {
    exists x :: x in block && x < |rows| && rows[x] == r
  }
}
