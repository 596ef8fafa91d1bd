/** ShardedLRUCache of util/cache.cc: sixteen LRUCache shards; the shard
    of a key is chosen by the top four bits of its hash. The hash of a key
    (HashSlice, which calls Hash of util/hash.h) is a parameter of each
    operation. size_t is 64 bits wide. */
module ShardedCache {
  import opened Slices
  import opened Wrappers
  import opened Cache

  const NumShardBits: nat := 4
  const NumShards: nat := 16

  /** 2^64: size_t and uint64_t arithmetic is modulo this. */
  const Modulus64: int := 0x1_0000_0000_0000_0000

  /** Shard(hash): the hash shifted right by 32 - kNumShardBits, so its top
      four bits, a shard index below kNumShards. */
  function ShardOf(hash: U32): (r: nat)
    ensures r < NumShards
    ensures r * 0x1000_0000 <= hash < (r + 1) * 0x1000_0000
  {
    hash / 0x1000_0000
  }

  /** The per-shard capacity as the constructor computes it:
      (capacity + (kNumShards - 1)) / kNumShards in size_t arithmetic,
      where the sum wraps around for the largest capacities. */
  function PerShardAsWritten(capacity: U64): (r: U64)
    ensures NumShards * r <= capacity + (NumShards - 1)
  {
    ((capacity + (NumShards - 1)) % Modulus64) / NumShards
  }

  /** The per-shard capacity the constructor means: the capacity divided
      by kNumShards, rounded up, so that the shards together hold at least
      the capacity and one less per shard would not. */
  function PerShard(capacity: U64): (r: U64)
    ensures NumShards * r >= capacity
    ensures r == 0 || NumShards * (r - 1) < capacity
  {
    capacity / NumShards + (if capacity % NumShards == 0 then 0 else 1)
  }

  /** The two agree except on the last fifteen capacities below 2^64. */
  lemma PerShardAgrees(capacity: U64)
    requires capacity <= Modulus64 - NumShards
    ensures PerShardAsWritten(capacity) == PerShard(capacity)
  {
    var q := capacity / NumShards;
    var m := capacity % NumShards;
    assert capacity == NumShards * q + m;
    if m == 0 {
      assert capacity + (NumShards - 1) == NumShards * q + 15;
    } else {
      assert capacity + (NumShards - 1) == NumShards * (q + 1) + (m - 1);
    }
  }

  /** On those capacities the sum wraps and every shard gets capacity 0,
      which turns caching off, where the rounded-up share is positive. */
  lemma PerShardWraps(capacity: U64)
    requires capacity > Modulus64 - NumShards
    ensures PerShardAsWritten(capacity) == 0 && PerShard(capacity) > 0
  {
    assert (capacity + (NumShards - 1)) % Modulus64 == capacity + (NumShards - 1) - Modulus64;
  }

  /** The sum of usage_ over the first n shards. */
  ghost function UsageSum(shards: seq<LRUCache>, n: nat): nat
    requires n <= |shards|
    reads shards
  {
    if n == 0 then 0 else UsageSum(shards, n - 1) + shards[n - 1].state.usage
  }

  /** NewLRUCache's shard: an empty LRUCache with the given capacity. */
  method NewShard(capacity: nat) returns (c: LRUCache)
    ensures fresh(c) && fresh(c.table) && fresh(c.table.list)
    ensures c.Valid() && c.capacity == capacity
    ensures c.state == ShardState(0, [], [], map[], map[], {}, 0, [])
  {
    c := new LRUCache();
    c.SetCapacity(capacity);
  }

  class ShardedLRUCache {
    const shards: seq<LRUCache>
    /** last_id_: the last id NewId handed out. */
    var lastId: U64

    ghost function Tables(): set<object>
    {
      set i | 0 <= i < |shards| :: shards[i].table
    }

    ghost function Lists(): set<object>
      reads Tables()
    {
      set i | 0 <= i < |shards| :: shards[i].table.list
    }

    /** Sixteen shards that share no object. */
    ghost predicate Shape()
      reads this, shards, Tables()
    {
      |shards| == NumShards &&
      (forall i, j :: 0 <= i < |shards| && 0 <= j < |shards| && i != j ==> shards[i] != shards[j]) &&
      (forall i, j :: 0 <= i < |shards| && 0 <= j < |shards| && i != j ==> shards[i].table != shards[j].table) &&
      (forall i, j :: 0 <= i < |shards| && 0 <= j < |shards| && i != j ==> shards[i].table.list != shards[j].table.list)
    }

    /** The shard that serves `hash` is sound. */
    ghost predicate ShardValid(hash: U32)
      reads this, shards, Tables(), Lists()
    {
      Shape() && shards[ShardOf(hash)].Valid()
    }

    /** Every shard is sound. */
    ghost predicate Valid()
      reads this, shards, Tables(), Lists()
    {
      Shape() && forall i {:trigger shards[i].Valid()} :: 0 <= i < |shards| ==> shards[i].Valid()
    }

    /** ShardedLRUCache(capacity): every shard empty, with the share of
        the capacity the source computes (see PerShardAsWritten). */
    constructor (capacity: U64)
      ensures Valid() && lastId == 0
      ensures forall i :: 0 <= i < |shards| ==>
                shards[i].capacity == PerShardAsWritten(capacity) &&
                shards[i].state == ShardState(0, [], [], map[], map[], {}, 0, [])
    {
      var perShard := PerShardAsWritten(capacity);
      var s: seq<LRUCache> := [];
      while |s| < NumShards
        invariant |s| <= NumShards
        invariant forall i :: 0 <= i < |s| ==>
                    s[i].Valid() && s[i].capacity == perShard &&
                    s[i].state == ShardState(0, [], [], map[], map[], {}, 0, [])
        invariant forall i, j :: 0 <= i < |s| && 0 <= j < |s| && i != j ==>
                    s[i] != s[j] && s[i].table != s[j].table && s[i].table.list != s[j].table.list
      {
        var c := NewShard(perShard);
        s := s + [c];
      }
      shards := s;
      lastId := 0;
    }

    /** Insert, Lookup, Release and Erase go to the shard of the hash and
        do there what LRUCache does. */
    method Insert(key: Bytes, hash: U32, value: nat, charge: nat, deleter: nat) returns (h: Handle)
      requires ShardValid(hash)
      modifies shards[ShardOf(hash)], shards[ShardOf(hash)].table, shards[ShardOf(hash)].table.list
      ensures ShardValid(hash)
      ensures var s := shards[ShardOf(hash)];
              InsertEffect(old(s.state), if s.capacity > 0 then old(s.table.Get(key, hash)) else None,
                           s.state, s.capacity, h, Info(key, hash, value, deleter, charge)) &&
              (s.capacity > 0 ==> s.table.Get(key, hash) == Some(h))
    {
      var s := shards[ShardOf(hash)];
      h := s.Insert(key, hash, value, charge, deleter);
    }

    method Lookup(key: Bytes, hash: U32) returns (r: Option<Handle>)
      requires ShardValid(hash)
      modifies shards[ShardOf(hash)]
      ensures ShardValid(hash)
      ensures var s := shards[ShardOf(hash)];
              r == s.table.Get(key, hash) &&
              (r.Some? ==> old(r.value in s.state.refs) && s.state == RefState(old(s.state), r.value)) &&
              (r.None? ==> s.state == old(s.state))
    {
      r := shards[ShardOf(hash)].Lookup(key, hash);
    }

    /** Release: the handle's own hash picks its shard. */
    method Release(hash: U32, h: Handle)
      requires ShardValid(hash)
      requires var st := shards[ShardOf(hash)].state;
               h in st.info && st.info[h].hash == hash &&
               h in st.refs && !(h in st.cached && st.refs[h] == 1)
      modifies shards[ShardOf(hash)]
      ensures ShardValid(hash)
      ensures shards[ShardOf(hash)].state == UnrefState(old(shards[ShardOf(hash)].state), h)
    {
      shards[ShardOf(hash)].Release(h);
    }

    method Erase(key: Bytes, hash: U32)
      requires ShardValid(hash)
      modifies shards[ShardOf(hash)], shards[ShardOf(hash)].table, shards[ShardOf(hash)].table.list
      ensures ShardValid(hash)
      ensures var s := shards[ShardOf(hash)];
              s.table.contents == old(s.table.contents) - {(key, hash)} &&
              Erasable(old(s.state), old(s.table.Get(key, hash))) &&
              s.state == EraseState(old(s.state), old(s.table.Get(key, hash)))
    {
      var k := ShardOf(hash);
      shards[k].Erase(key, hash);
    }

    /** Value: the value pointer of a live handle. */
    method Value(hash: U32, h: Handle) returns (v: nat)
      requires ShardValid(hash) && h in shards[ShardOf(hash)].state.info
      ensures v == shards[ShardOf(hash)].state.info[h].value
    {
      v := shards[ShardOf(hash)].state.info[h].value;
    }

    /** NewId: ++last_id_ in uint64_t arithmetic. */
    method NewId() returns (id: U64)
      modifies this
      ensures id == lastId && lastId == (old(lastId) + 1) % Modulus64
      ensures old(lastId) < Modulus64 - 1 ==> id > old(lastId)
    {
      lastId := (lastId + 1) % Modulus64;
      id := lastId;
    }

    /** Prune: every shard drops the entries no client holds. */
    method Prune()
      requires Valid()
      modifies shards, Tables(), Lists()
      ensures Valid()
      ensures forall i :: 0 <= i < |shards| ==>
                shards[i].state.lru == [] && shards[i].state.inUse == old(shards[i].state.inUse)
      ensures forall i, h :: 0 <= i < |shards| && h in old(shards[i].state.lru) ==>
                h !in shards[i].state.refs
      ensures forall i :: 0 <= i < |shards| ==> Untouched(old(shards[i].state), shards[i].state)
    {
      for s := 0 to NumShards
        invariant Valid()
        invariant forall i :: 0 <= i < |shards| ==> shards[i].table.list == old(shards[i].table.list)
        invariant forall i :: 0 <= i < s ==>
                    shards[i].state.lru == [] && shards[i].state.inUse == old(shards[i].state.inUse)
        invariant forall i, h :: 0 <= i < s && h in old(shards[i].state.lru) ==>
                    h !in shards[i].state.refs
        invariant forall i :: 0 <= i < s ==> Untouched(old(shards[i].state), shards[i].state)
        invariant forall i :: s <= i < |shards| ==> shards[i].state == old(shards[i].state)
      {
        PruneShard(s);
      }
    }

    /** One step of Prune: the k-th shard prunes, the others keep their state. */
    method PruneShard(k: nat)
      requires Valid() && k < |shards|
      modifies shards[k], shards[k].table, shards[k].table.list
      ensures Valid()
      ensures shards[k].table.list == old(shards[k].table.list)
      ensures shards[k].state.lru == [] && shards[k].state.inUse == old(shards[k].state.inUse)
      ensures forall h :: h in old(shards[k].state.lru) ==> h !in shards[k].state.refs
      ensures Untouched(old(shards[k].state), shards[k].state)
    {
      shards[k].Prune();
      forall i | 0 <= i < |shards| && i != k
        ensures shards[i].Valid()
      {
        assert unchanged(shards[i], shards[i].table, old(shards[i].table.list));
        assert shards[i].Valid() == old(shards[i].Valid());
      }
    }

    /** TotalCharge: the sum over the shards of their usage_, which is the
        sum of the charges of all cached entries. */
    method TotalCharge() returns (total: nat)
      requires Valid()
      ensures total == UsageSum(shards, NumShards)
    {
      total := 0;
      for s := 0 to NumShards
        invariant total == UsageSum(shards, s)
      {
        var t := shards[s].TotalCharge();
        total := total + t;
      }
    }
  }
}
