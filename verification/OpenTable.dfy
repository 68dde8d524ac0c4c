/** A table with open addressing and linear probing that finds an earlier entry with an equal
    key, whatever the hash function. */
module OpenTable {
  import opened FiniteSets

  /** The j-th slot probed from home, around the end of the table. */
  function SlotAt(home: nat, j: nat, cap: nat): (k: nat)
    requires home < cap && j < cap
    ensures k < cap
  {
    if home + j < cap then home + j else home + j - cap
  }

  function Home(keys: seq<set<nat>>, hash: set<nat> -> nat, cap: nat, i: nat): (h: nat)
    requires i < |keys| && cap > 0
    ensures h < cap
  {
    hash(keys[i]) % cap
  }

  /** Entry i sits at distance d from its home, and every slot on the way is taken. */
  ghost predicate EntryOk(keys: seq<set<nat>>, hash: set<nat> -> nat, slot: seq<int>, hsl: seq<nat>, i: nat, d: nat)
    requires i < |keys| && |slot| == |hsl| > 0
  {
    var home := Home(keys, hash, |slot|, i);
    && d < |slot| && slot[SlotAt(home, d, |slot|)] == i && hsl[SlotAt(home, d, |slot|)] == hash(keys[i])
    && forall j: nat | j < d :: slot[SlotAt(home, j, |slot|)] >= 0
  }

  /** `dist` holds the entries with their distances. */
  ghost predicate TableOk(keys: seq<set<nat>>, hash: set<nat> -> nat, slot: seq<int>, hsl: seq<nat>, dist: map<nat,
                          nat>) {
    && |slot| == |hsl| > 0
    && (forall i | i in dist :: i < |keys| && EntryOk(keys, hash, slot, hsl, i, dist[i]))
    && (forall k | 0 <= k < |slot| && slot[k] >= 0 ::
          && slot[k] in dist && slot[k] < |keys| && dist[slot[k] as nat] < |slot|
          && k == SlotAt(Home(keys, hash, |slot|, slot[k]), dist[slot[k] as nat], |slot|))
  }

  /** The slots probed so far hold different entries. */
  lemma ProbeBound(keys: seq<set<nat>>, hash: set<nat> -> nat, slot: seq<int>, hsl: seq<nat>, dist: map<nat, nat>,
                   home: nat, d: nat)
    requires TableOk(keys, hash, slot, hsl, dist) && d <= |slot| && home < |slot|
    requires forall j: nat | j < d :: slot[SlotAt(home, j, |slot|)] >= 0
    ensures d <= |dist|
  {
    var entries: seq<nat> := seq(d, j requires 0 <= j < d => slot[SlotAt(home, j, |slot|)]);
    NoRepeatsCard(entries);
    assert ToSet(entries) <= dist.Keys;
    SubsetCard(ToSet(entries), dist.Keys);
  }

  /** An empty slot ends the search: no entry has the key. */
  lemma Missing(keys: seq<set<nat>>, hash: set<nat> -> nat, slot: seq<int>, hsl: seq<nat>, dist: map<nat, nat>,
                i: nat, d: nat, e: nat)
    requires TableOk(keys, hash, slot, hsl, dist) && i < |keys| && e in dist && d < |slot|
    requires var home := Home(keys, hash, |slot|, i);
      slot[SlotAt(home, d, |slot|)] < 0 && forall j: nat | j < d ::
        0 <= slot[SlotAt(home, j, |slot|)] < |keys| && keys[slot[SlotAt(home, j, |slot|)]] != keys[i]
    ensures keys[e] != keys[i]
  {
    assert EntryOk(keys, hash, slot, hsl, e, dist[e]);
  }

  lemma Inserted(keys: seq<set<nat>>, hash: set<nat> -> nat, slot: seq<int>, hsl: seq<nat>, dist: map<nat, nat>,
                 i: nat, d: nat)
    requires TableOk(keys, hash, slot, hsl, dist) && i < |keys| && i !in dist && d < |slot|
    requires var home := Home(keys, hash, |slot|, i);
      slot[SlotAt(home, d, |slot|)] < 0 && forall j: nat | j < d :: slot[SlotAt(home, j, |slot|)] >= 0
    ensures var k := SlotAt(Home(keys, hash, |slot|, i), d, |slot|);
      TableOk(keys, hash, slot[k := i], hsl[k := hash(keys[i])], dist[i := d])
  {
    var k := SlotAt(Home(keys, hash, |slot|, i), d, |slot|);
    var slot', hsl', dist' := slot[k := i], hsl[k := hash(keys[i])], dist[i := d];
    forall e | e in dist' ensures e < |keys| && EntryOk(keys, hash, slot', hsl', e, dist'[e]) {
      if e != i { assert EntryOk(keys, hash, slot, hsl, e, dist[e]); }
    }
  }

  class Table {
    const keys: seq<set<nat>>
    const hash: set<nat> -> nat
    const slot: array<int>
    const hsl: array<nat>
    ghost var dist: map<nat, nat>

    ghost predicate Valid()
      reads this, slot, hsl
    {
      TableOk(keys, hash, slot[..], hsl[..], dist)
    }

    constructor (keys: seq<set<nat>>, cap: nat, hash: set<nat> -> nat)
      requires cap > 0
      ensures Valid() && dist == map[] && this.keys == keys && slot.Length == cap && fresh(slot) && fresh(hsl)
    {
      this.keys, this.hash := keys, hash;
      slot := new int[cap](k => -1);
      hsl := new nat[cap](k => 0);
      dist := map[];
    }

    /** An earlier entry with the key of i, or else i becomes an entry. */
    method FindOrInsert(i: nat) returns (found: int)
      requires Valid() && i < |keys| && i !in dist && |dist| < slot.Length
      modifies this, slot, hsl
      ensures Valid()
      ensures found >= 0 ==> found as nat in dist && keys[found] == keys[i] && dist == old(dist)
      ensures found < 0 ==> dist.Keys == old(dist.Keys) + {i} && forall j | j in old(dist) :: keys[j] != keys[i]
    {
      var k: nat;
      ghost var d: nat;
      k, d, found := Probe(i);
      if found < 0 {
        Inserted(keys, hash, slot[..], hsl[..], dist, i, d);
        hide TableOk, EntryOk;
        ghost var slot0, hsl0 := slot[..], hsl[..];
        slot[k], hsl[k] := i, hash(keys[i]);
        dist := dist[i := d];
        assert slot[..] == slot0[k := i] && hsl[..] == hsl0[k := hash(keys[i])];
      }
    }

    /** Goes through the slots from the home of key i on, up to an entry with that key or an
        empty slot. */
    method Probe(i: nat) returns (k: nat, ghost d: nat, found: int)
      requires Valid() && i < |keys| && i !in dist && |dist| < slot.Length
      ensures found >= 0 ==> found as nat in dist && keys[found] == keys[i]
      ensures found < 0 ==> d < slot.Length && k == SlotAt(Home(keys, hash, slot.Length, i), d,
                                                           slot.Length) && slot[k] < 0
      ensures found < 0 ==> forall j: nat | j < d :: slot[SlotAt(Home(keys, hash, slot.Length, i), j, slot.Length)] >= 0
      ensures found < 0 ==> forall j | j in dist :: keys[j] != keys[i]
    {
      hide EntryOk, TableOk;
      TableShape(keys, hash, slot[..], hsl[..], dist);
      var cap := slot.Length;
      var h: nat := hash(keys[i]);
      ghost var home := Home(keys, hash, cap, i);
      k, d := h % cap, 0;
      while slot[k] >= 0
        invariant d <= |dist| && k == SlotAt(home, d, cap)
        invariant forall j: nat | j < d ::
          0 <= slot[SlotAt(home, j, cap)] < |keys| && keys[slot[SlotAt(home, j, cap)]] != keys[i]
        decreases |dist| - d
      {
        EntryHash(keys, hash, slot[..], hsl[..], dist, k);
        if hsl[k] == h {
          if keys[slot[k]] == keys[i] {
            found := slot[k];
            return;
          }
        }
        Wrap(k, cap);
        k := (k + 1) % cap;
        d := d + 1;
        ProbeBound(keys, hash, slot[..], hsl[..], dist, home, d);
      }
      forall j | j in dist ensures keys[j] != keys[i] {
        Missing(keys, hash, slot[..], hsl[..], dist, i, d, j);
      }
      found := -1;
    }
  }

  lemma TableShape(keys: seq<set<nat>>, hash: set<nat> -> nat, slot: seq<int>, hsl: seq<nat>, dist: map<nat, nat>)
    requires TableOk(keys, hash, slot, hsl, dist)
    ensures |slot| == |hsl| > 0 && forall j | j in dist :: j < |keys|
  {}

  lemma Wrap(k: nat, cap: nat)
    requires k < cap
    ensures (k + 1) % cap == if k + 1 == cap then 0 else k + 1
  {}

  lemma EntryHash(keys: seq<set<nat>>, hash: set<nat> -> nat, slot: seq<int>, hsl: seq<nat>, dist: map<nat, nat>,
                  k: nat)
    requires TableOk(keys, hash, slot, hsl, dist) && k < |slot| && slot[k] >= 0
    ensures slot[k] in dist && slot[k] < |keys| && hsl[k] == hash(keys[slot[k]])
  {
    assert EntryOk(keys, hash, slot, hsl, slot[k], dist[slot[k] as nat]);
  }
}
