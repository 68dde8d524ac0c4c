/** The hash table from extents to concept numbers.  The hash function is arbitrary: keys are
    compared after a hash match. */
module ExtentMap {

  datatype Entry = Entry(key: set<nat>, hash: nat, id: nat)

  class WMap {
    const hash: set<nat> -> nat
    /** chains of entries, the newest first */
    var buckets: seq<seq<Entry>>
    ghost var content: map<set<nat>, nat>

    ghost predicate Valid()
      reads this
    {
      && buckets != []
      && (forall b | 0 <= b < |buckets| :: ChainOk(hash, buckets[b]))
      && forall key ::
        Lookup(buckets[hash(key) % |buckets|], key) == (if key in content then content[key] as int else -1)
    }

    constructor (expected: nat, hash: set<nat> -> nat)
      ensures Valid() && content == map[] && this.hash == hash
    {
      var nb := 1024;
      while nb < (if expected > 0 then expected else 1) * 2
        invariant nb >= 1024
      {
        nb := nb * 2;
      }
      this.hash := hash;
      buckets := seq(nb, b => []);
      content := map[];
    }

    method Put(key: set<nat>, id: nat)
      requires Valid()
      modifies this
      ensures Valid() && content == old(content)[key := id]
    {
      var h := hash(key);
      var b := h % |buckets|;
      ghost var before := buckets;
      buckets := buckets[b := [Entry(key, h, id)] + buckets[b]];
      content := content[key := id];
      assert buckets[b][1..] == before[b];
      forall k ensures Lookup(buckets[hash(k) % |buckets|], k) == (if k in content then content[k] as int else -1) {
        assert k == key || Lookup(before[hash(k) % |buckets|],
                                  k) == (if k in old(content) then old(content)[k] as int else -1);
      }
    }

    /** The number put last for the extent, or -1. */
    method Get(key: set<nat>) returns (id: int)
      requires Valid()
      ensures id == if key in content then content[key] else -1
    {
      var h := hash(key);
      var chain := buckets[h % |buckets|];
      var n := 0;
      while n < |chain|
        invariant n <= |chain| && Lookup(chain, key) == Lookup(chain[n..], key)
      {
        assert chain[n..][0] == chain[n] && chain[n..][1..] == chain[n + 1..];
        if chain[n].hash == h {
          if chain[n].key == key {
            return chain[n].id;
          }
        }
        n := n + 1;
      }
      assert chain[n..] == [];
      id := -1;
    }
  }

  ghost predicate ChainOk(hash: set<nat> -> nat, chain: seq<Entry>) {
    forall n | 0 <= n < |chain| :: chain[n].hash == hash(chain[n].key)
  }

  ghost function Lookup(chain: seq<Entry>, key: set<nat>): int {
    if chain == [] then -1 else if chain[0].key == key then chain[0].id else Lookup(chain[1..], key)
  }
}
