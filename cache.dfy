/** The LRU cache of util/cache.cc: a chained hash table of entries
    (HandleTable), a cache shard that keeps its entries in an in-use list
    and an LRU list and evicts by charge (LRUCache), and sixteen shards
    picked by the top four bits of the hash (ShardedLRUCache).

    An LRUHandle is named by a Handle number; its fields live in the
    shard's `entries` map. A hash-table slot carries the entry's key and
    hash, which never change after Insert. The intrusive circular lists are
    sequences, oldest first, and the next_hash chains are the sequences
    held in the bucket array. */
module Cache {
  import opened Slices
  import opened Wrappers

  /** An LRUHandle's address. */
  type Handle = nat

  /** A hash-chain element: the key and hash of the entry, and the entry. */
  datatype Slot = Slot(key: Bytes, hash: U32, handle: Handle)

  function KeyOf(s: Slot): (Bytes, U32)
  {
    (s.key, s.hash)
  }

  /** The keys held in one chain. */
  function ChainKeys(chain: seq<Slot>): set<(Bytes, U32)>
  {
    set s | s in chain :: KeyOf(s)
  }

  /** Total(chains): the number of slots in all of the chains. */
  function Total(chains: seq<seq<Slot>>): nat
  {
    if chains == [] then 0 else Total(chains[..|chains| - 1]) + |chains[|chains| - 1]|
  }

  /** Replacing one chain changes the total by the difference in lengths. */
  lemma {:induction false} TotalUpdate(chains: seq<seq<Slot>>, b: nat, c: seq<Slot>)
    requires b < |chains|
    ensures Total(chains[b := c]) + |chains[b]| == Total(chains) + |c|
  {
    var n := |chains| - 1;
    if b < n {
      assert chains[b := c][..n] == chains[..n][b := c];
      TotalUpdate(chains[..n], b, c);
    } else {
      assert chains[b := c][..n] == chains[..n];
    }
  }

  predicate IsPowerOfTwo(n: nat)
    decreases n
  {
    n == 1 || (n >= 2 && n % 2 == 0 && IsPowerOfTwo(n / 2))
  }

  /** The bucket of a hash: `hash & (length - 1)`, which for a power of two
      length is `hash % length`. */
  function Bucket(hash: U32, length: nat): nat
    requires length > 0
  {
    hash % length
  }

  /** The chains as a table of |chains| buckets for the keys `keys`: every
      slot sits in its hash's bucket, holds a key of `keys` and agrees with
      `contents`; no chain holds a key twice; every key of `keys` is in its
      bucket. */
  ghost predicate Arranged(chains: seq<seq<Slot>>, keys: set<(Bytes, U32)>,
                           contents: map<(Bytes, U32), Handle>)
  {
    (forall b, p :: 0 <= b < |chains| && 0 <= p < |chains[b]| ==>
       Bucket(chains[b][p].hash, |chains|) == b && KeyOf(chains[b][p]) in keys &&
       KeyOf(chains[b][p]) in contents && contents[KeyOf(chains[b][p])] == chains[b][p].handle) &&
    (forall b, p, q :: 0 <= b < |chains| && 0 <= p < q < |chains[b]| ==>
       KeyOf(chains[b][p]) != KeyOf(chains[b][q])) &&
    (forall k :: k in keys ==> |chains| > 0 && k in ChainKeys(chains[Bucket(k.1, |chains|)]))
  }

  /** HandleTable: buckets of chains; `elems` slots in all. */
  class HandleTable {
    var length: nat
    var elems: nat
    var list: array<seq<Slot>>
    /** The mapping the table represents: key and hash to entry. */
    ghost var contents: map<(Bytes, U32), Handle>

    ghost predicate Consistent()
      reads this, list
    {
      list.Length == length && elems == Total(list[..]) &&
      Arranged(list[..], contents.Keys, contents)
    }

    /** The table between operations: its length is a power of two, at
        least 4, and at least the number of elements. */
    ghost predicate Valid()
      reads this, list
    {
      Consistent() && IsPowerOfTwo(length) && length >= 4 && elems <= length
    }

    /** The entry the table maps key and hash to, if any. */
    ghost function Get(key: Bytes, hash: U32): Option<Handle>
      reads this
    {
      if (key, hash) in contents then Some(contents[(key, hash)]) else None
    }

    /** HandleTable(): Resize from an empty table gives four empty buckets. */
    constructor ()
      ensures Valid() && contents == map[] && elems == 0 && length == 4
      ensures fresh(list)
    {
      length := 0;
      elems := 0;
      list := new seq<Slot>[0];
      contents := map[];
      new;
      assert list[..] == [];
      Resize();
    }

    /** FindPointer: the bucket of `hash`, and the position in its chain of
        the slot with this key and hash, or the chain's end when none has. */
    method FindPointer(key: Bytes, hash: U32) returns (b: nat, p: nat)
      requires Consistent() && length > 0
      ensures b == Bucket(hash, length) && p <= |list[b]|
      ensures p < |list[b]| <==> (key, hash) in contents
      ensures p < |list[b]| ==> KeyOf(list[b][p]) == (key, hash) &&
                                list[b][p].handle == contents[(key, hash)]
    {
      b := hash % length;
      var chain := list[b];
      p := 0;
      while p < |chain| && (chain[p].hash != hash || chain[p].key != key)
        invariant p <= |chain|
        invariant forall q :: 0 <= q < p ==> KeyOf(chain[q]) != (key, hash)
      {
        p := p + 1;
      }
      assert chain == list[..][b];
      if (key, hash) in contents {
        var s :| s in chain && KeyOf(s) == (key, hash);
      }
    }

    /** Lookup: the entry for key and hash, or None. */
    method Lookup(key: Bytes, hash: U32) returns (r: Option<Handle>)
      requires Valid()
      ensures r == Get(key, hash)
    {
      var b, p := FindPointer(key, hash);
      if p < |list[b]| {
        r := Some(list[b][p].handle);
      } else {
        r := None;
      }
    }

    /** Insert: maps the slot's key and hash to its entry, in place of an
        entry with the same key and hash (which is returned) or at the end
        of the chain; a new element can grow the table. */
    method Insert(s: Slot) returns (previous: Option<Handle>)
      requires Valid()
      modifies this, list
      ensures Valid()
      ensures previous == old(Get(s.key, s.hash))
      ensures contents == old(contents)[KeyOf(s) := s.handle]
      ensures elems == old(elems) + (if previous.None? then 1 else 0)
      ensures list == old(list) || fresh(list)
    {
      var b, p := FindPointer(s.key, s.hash);
      var chain := list[b];
      ghost var before := list[..];
      if p < |chain| {
        previous := Some(chain[p].handle);
        list[b] := chain[..p] + [s] + chain[p + 1..];
        assert list[..] == before[b := list[b]];
        ArrangedReplace(before, b, p, s, contents);
        TotalUpdate(before, b, list[b]);
        contents := contents[KeyOf(s) := s.handle];
      } else {
        previous := None;
        list[b] := chain + [s];
        assert list[..] == before[b := list[b]];
        ArrangedAppend(before, b, s, contents);
        TotalUpdate(before, b, list[b]);
        contents := contents[KeyOf(s) := s.handle];
        elems := elems + 1;
        if elems > length {
          Resize();
        }
      }
    }

    /** Remove: unmaps key and hash, returning the entry that was mapped. */
    method Remove(key: Bytes, hash: U32) returns (r: Option<Handle>)
      requires Valid()
      modifies this, list
      ensures Valid() && list == old(list) && length == old(length)
      ensures r == old(Get(key, hash))
      ensures contents == old(contents) - {(key, hash)}
      ensures elems == old(elems) - (if r.Some? then 1 else 0)
    {
      var b, p := FindPointer(key, hash);
      var chain := list[b];
      if p < |chain| {
        ghost var before := list[..];
        r := Some(chain[p].handle);
        list[b] := chain[..p] + chain[p + 1..];
        assert list[..] == before[b := list[b]];
        ArrangedRemove(before, b, p, contents);
        TotalUpdate(before, b, list[b]);
        contents := contents - {(key, hash)};
        elems := elems - 1;
      } else {
        r := None;
        assert contents == old(contents) - {(key, hash)};
      }
    }

    /** Resize: the new length is the smallest power of two, from 4 up, that
        is at least `elems`; every slot moves to the front of its bucket for
        the new length, bucket by bucket and chain order; `count` ends equal
        to `elems` and the mapping is unchanged. */
    method Resize()
      requires Consistent()
      modifies this
      ensures Valid() && fresh(list)
      ensures contents == old(contents) && elems == old(elems)
      ensures length == 4 || length / 2 < elems
    {
      var newLength := 4;
      while newLength < elems
        invariant newLength >= 4 && IsPowerOfTwo(newLength)
        invariant newLength == 4 || newLength / 2 < elems
        decreases elems - newLength
      {
        newLength := newLength * 2;
      }
      var newList, count := Rehash(list[..], newLength, contents);
      assert count == elems;
      list := newList;
      length := newLength;
    }
  }

  /** The body of Resize after the new length is chosen: a zeroed array of
      `newLength` buckets, then every chain of the old table moved into it
      bucket by bucket; `count` is the number of slots moved. */
  method Rehash(chains: seq<seq<Slot>>, newLength: nat, ghost contents: map<(Bytes, U32), Handle>)
    returns (newList: array<seq<Slot>>, count: nat)
    requires Arranged(chains, contents.Keys, contents) && newLength > 0
    ensures fresh(newList) && newList.Length == newLength
    ensures Arranged(newList[..], contents.Keys, contents)
    ensures count == Total(newList[..]) == Total(chains)
  {
    newList := new seq<Slot>[newLength];
    for i := 0 to newLength
      invariant forall c :: 0 <= c < i ==> newList[c] == []
    {
      newList[i] := [];
    }
    EmptyArranged(newList[..], contents);
    EmptyTotal(newList[..]);
    count := 0;
    ghost var moved: set<(Bytes, U32)> := {};
    for i := 0 to |chains|
      invariant Arranged(newList[..], moved, contents)
      invariant count == Total(newList[..]) == Total(chains[..i])
      invariant forall k :: k in contents ==> |chains| > 0 && (Bucket(k.1, |chains|) < i <==> k in moved)
      invariant moved <= contents.Keys
    {
      count, moved := MoveChain(newList, chains, i, count, contents, moved);
      TotalPrefix(chains, i);
    }
    MovedAll(contents, moved, |chains|);
    assert chains[..|chains|] == chains;
  }

  /** The inner loop of Resize: walks chain i of the old table and pushes
      each slot onto the front of its bucket in `newList`, counting it. */
  method MoveChain(newList: array<seq<Slot>>, chains: seq<seq<Slot>>, i: nat, count: nat,
                   ghost contents: map<(Bytes, U32), Handle>, ghost moved: set<(Bytes, U32)>)
    returns (count': nat, ghost moved': set<(Bytes, U32)>)
    requires Arranged(chains, contents.Keys, contents) && i < |chains|
    requires newList.Length > 0 && Arranged(newList[..], moved, contents)
    requires forall k :: k in contents ==> (Bucket(k.1, |chains|) < i <==> k in moved)
    modifies newList
    ensures Arranged(newList[..], moved', contents)
    ensures count' == count + |chains[i]|
    ensures Total(newList[..]) == old(Total(newList[..])) + |chains[i]|
    ensures forall k :: k in contents ==> (Bucket(k.1, |chains|) < i + 1 <==> k in moved')
    ensures moved <= contents.Keys ==> moved' <= contents.Keys
  {
    var chain := chains[i];
    var j := 0;
    count', moved' := count, moved;
    while j < |chain|
      invariant j <= |chain| && count' == count + j
      invariant Arranged(newList[..], moved', contents)
      invariant Total(newList[..]) == old(Total(newList[..])) + j
      invariant forall k :: k in contents ==>
                  (Bucket(k.1, |chains|) < i || k in ChainKeys(chain[..j]) <==> k in moved')
    {
      var h := chain[j];
      var nb := h.hash % newList.Length;
      ghost var arranged := newList[..];
      SlotFacts(chains, i, j, contents);
      newList[nb] := [h] + newList[nb];
      assert newList[..] == arranged[nb := [h] + arranged[nb]];
      ArrangedPush(arranged, h, moved', contents);
      TotalUpdate(arranged, nb, [h] + arranged[nb]);
      PrefixKeys(chain, j);
      moved' := moved' + {KeyOf(h)};
      j, count' := j + 1, count' + 1;
    }
    BucketDone(chains, i, contents, moved');
  }

  /** Once every bucket has moved, every key has. */
  lemma {:induction false} MovedAll(contents: map<(Bytes, U32), Handle>, moved: set<(Bytes, U32)>, n: nat)
    requires moved <= contents.Keys
    requires forall k :: k in contents ==> n > 0 && (Bucket(k.1, n) < n <==> k in moved)
    ensures moved == contents.Keys
  {
  }

  /** No slot in an empty table. */
  lemma {:induction false} EmptyArranged(chains: seq<seq<Slot>>, contents: map<(Bytes, U32), Handle>)
    requires forall c :: 0 <= c < |chains| ==> chains[c] == []
    ensures Arranged(chains, {}, contents)
  {
  }

  lemma {:induction false} EmptyTotal(chains: seq<seq<Slot>>)
    requires forall c :: 0 <= c < |chains| ==> chains[c] == []
    ensures Total(chains) == 0
  {
    if chains != [] {
      EmptyTotal(chains[..|chains| - 1]);
    }
  }

  /** The slot at position j of bucket i: its bucket, and that no earlier
      slot of the chain has its key. */
  lemma {:induction false} SlotFacts(chains: seq<seq<Slot>>, i: nat, j: nat, contents: map<(Bytes, U32), Handle>)
    requires Arranged(chains, contents.Keys, contents)
    requires i < |chains| && j < |chains[i]|
    ensures Bucket(chains[i][j].hash, |chains|) == i
    ensures KeyOf(chains[i][j]) in contents && contents[KeyOf(chains[i][j])] == chains[i][j].handle
    ensures KeyOf(chains[i][j]) !in ChainKeys(chains[i][..j])
  {
    var k := KeyOf(chains[i][j]);
    forall t | t in chains[i][..j] ensures KeyOf(t) != k {
      var q :| 0 <= q < j && chains[i][..j][q] == t;
      assert chains[i][q] == t;
    }
  }

  /** One more slot of a chain. */
  lemma {:induction false} PrefixKeys(chain: seq<Slot>, j: nat)
    requires j < |chain|
    ensures ChainKeys(chain[..j + 1]) == ChainKeys(chain[..j]) + {KeyOf(chain[j])}
  {
    assert chain[..j + 1] == chain[..j] + [chain[j]];
    AppendKeeps(chain[..j], chain[j], KeyOf(chain[j]));
  }

  /** One more chain of the prefix. */
  lemma {:induction false} TotalPrefix(chains: seq<seq<Slot>>, i: nat)
    requires i < |chains|
    ensures Total(chains[..i + 1]) == Total(chains[..i]) + |chains[i]|
  {
    assert chains[..i + 1][..i] == chains[..i];
  }

  /** After the whole of chain i has moved, the moved keys are those of
      the buckets up to i. */
  lemma {:induction false} BucketDone(chains: seq<seq<Slot>>, i: nat, contents: map<(Bytes, U32), Handle>,
                   moved: set<(Bytes, U32)>)
    requires Arranged(chains, contents.Keys, contents) && i < |chains|
    requires forall k :: k in contents ==>
               (Bucket(k.1, |chains|) < i || k in ChainKeys(chains[i][..|chains[i]|]) <==> k in moved)
    ensures forall k :: k in contents ==> (Bucket(k.1, |chains|) < i + 1 <==> k in moved)
  {
    assert chains[i][..|chains[i]|] == chains[i];
    ChainOfBucket(chains, i, contents);
  }

  /** The keys of bucket i are the keys of `contents` whose bucket is i. */
  lemma {:induction false} ChainOfBucket(chains: seq<seq<Slot>>, i: nat, contents: map<(Bytes, U32), Handle>)
    requires Arranged(chains, contents.Keys, contents) && i < |chains|
    ensures forall k :: k in ChainKeys(chains[i]) ==> k in contents && Bucket(k.1, |chains|) == i
  {
    forall k | k in ChainKeys(chains[i])
      ensures k in contents && Bucket(k.1, |chains|) == i
    {
      var t :| t in chains[i] && KeyOf(t) == k;
      var q :| 0 <= q < |chains[i]| && chains[i][q] == t;
    }
  }

  /** Replacing the slot of an existing key keeps the table arranged. */
  lemma {:induction false} ArrangedReplace(chains: seq<seq<Slot>>, b: nat, p: nat, s: Slot,
                        contents: map<(Bytes, U32), Handle>)
    requires Arranged(chains, contents.Keys, contents)
    requires b < |chains| && p < |chains[b]| && KeyOf(chains[b][p]) == KeyOf(s)
    ensures var after := contents[KeyOf(s) := s.handle];
            Arranged(chains[b := chains[b][..p] + [s] + chains[b][p + 1..]], after.Keys, after)
  {
    var after := contents[KeyOf(s) := s.handle];
    var c: seq<Slot> := chains[b][..p] + [s] + chains[b][p + 1..];
    ReplacedAt(chains[b], p, s);
    ReplaceKeeps(chains[b], p, s, KeyOf(s));
    var next: seq<seq<Slot>> := chains[b := c];
    assert after.Keys == contents.Keys;
    forall d: int, q: int | 0 <= d < |next| && 0 <= q < |next[d]|
      ensures Bucket(next[d][q].hash, |next|) == d
      ensures KeyOf(next[d][q]) in after && after[KeyOf(next[d][q])] == next[d][q].handle
    {
      if d == b && q != p {
        assert next[d][q] == chains[b][q];
        assert KeyOf(chains[b][q]) != KeyOf(chains[b][p]) by {
          if q < p { } else { }
        }
      } else if d != b {
        assert next[d][q] == chains[d][q];
        assert Bucket(chains[d][q].hash, |chains|) == d;
        assert Bucket(chains[b][p].hash, |chains|) == b;
        assert KeyOf(chains[d][q]) != KeyOf(s);
      }
    }
    forall d: int, q: int, r: int | 0 <= d < |next| && 0 <= q < r < |next[d]|
      ensures KeyOf(next[d][q]) != KeyOf(next[d][r])
    {
      if d == b {
        if q != p && r != p {
          assert next[d][q] == chains[b][q] && next[d][r] == chains[b][r];
        } else if q == p {
          assert next[d][r] == chains[b][r];
        } else {
          assert next[d][q] == chains[b][q];
        }
      }
    }
    forall k | k in after.Keys
      ensures |next| > 0 && k in ChainKeys(next[Bucket(k.1, |next|)])
    {
      assert k in contents.Keys;
    }
  }

  /** The chain with position p replaced by s, element by element. */
  lemma {:induction false} ReplacedAt(chain: seq<Slot>, p: nat, s: Slot)
    requires p < |chain|
    ensures var c := chain[..p] + [s] + chain[p + 1..];
            |c| == |chain| && c[p] == s &&
            forall q :: 0 <= q < |c| && q != p ==> c[q] == chain[q]
  {
  }

  /** Appending the slot of a new key to its bucket keeps the table arranged. */
  lemma {:induction false} ArrangedAppend(chains: seq<seq<Slot>>, b: nat, s: Slot,
                       contents: map<(Bytes, U32), Handle>)
    requires Arranged(chains, contents.Keys, contents)
    requires b < |chains| && b == Bucket(s.hash, |chains|) && KeyOf(s) !in contents
    ensures var after := contents[KeyOf(s) := s.handle];
            Arranged(chains[b := chains[b] + [s]], after.Keys, after)
  {
    var after := contents[KeyOf(s) := s.handle];
    var c := chains[b] + [s];
    var next := chains[b := c];
    AppendKeeps(chains[b], s, KeyOf(s));
    forall d, q | 0 <= d < |next| && 0 <= q < |next[d]|
      ensures KeyOf(next[d][q]) in after && after[KeyOf(next[d][q])] == next[d][q].handle
    {
      if d == b && q < |chains[b]| {
        assert next[d][q] == chains[b][q];
      }
    }
    forall d, p, q | 0 <= d < |next| && 0 <= p < q < |next[d]|
      ensures KeyOf(next[d][p]) != KeyOf(next[d][q])
    {
      if d == b && q == |chains[b]| {
        assert next[d][p] == chains[b][p];
      }
    }
  }

  /** Removing the slot of a key keeps the table arranged without it. */
  lemma {:induction false} ArrangedRemove(chains: seq<seq<Slot>>, b: nat, p: nat,
                       contents: map<(Bytes, U32), Handle>)
    requires Arranged(chains, contents.Keys, contents)
    requires b < |chains| && p < |chains[b]|
    ensures var after := contents - {KeyOf(chains[b][p])};
            Arranged(chains[b := chains[b][..p] + chains[b][p + 1..]], after.Keys, after)
  {
    var k := KeyOf(chains[b][p]);
    var after := contents - {k};
    var c := chains[b][..p] + chains[b][p + 1..];
    var next: seq<seq<Slot>> := chains[b := c];
    RemoveKeeps(chains[b], p, k);
    assert forall q :: 0 <= q < |c| ==> c[q] == chains[b][if q < p then q else q + 1];
    forall d, q | 0 <= d < |next| && 0 <= q < |next[d]|
      ensures Bucket(next[d][q].hash, |next|) == d && KeyOf(next[d][q]) in after.Keys &&
              KeyOf(next[d][q]) in after && after[KeyOf(next[d][q])] == next[d][q].handle
    {
      var q' := if d == b && q >= p then q + 1 else q;
      assert next[d][q] == chains[d][q'];
      if d == b {
        assert KeyOf(chains[b][q']) != k;
      }
    }
    forall d, x, y | 0 <= d < |next| && 0 <= x < y < |next[d]|
      ensures KeyOf(next[d][x]) != KeyOf(next[d][y])
    {
      if d == b {
        assert next[d][x] == chains[b][if x < p then x else x + 1];
        assert next[d][y] == chains[b][if y < p then y else y + 1];
      }
    }
    forall k' | k' in after.Keys
      ensures |next| > 0 && k' in ChainKeys(next[Bucket(k'.1, |next|)])
    {
      assert k' in contents.Keys && k' != k;
    }
  }

  /** Pushing the slot of a key not yet moved onto the front of its bucket
      keeps the new table arranged for the moved keys and that one. */
  lemma {:induction false} ArrangedPush(chains: seq<seq<Slot>>, s: Slot, moved: set<(Bytes, U32)>,
                     contents: map<(Bytes, U32), Handle>)
    requires Arranged(chains, moved, contents) && |chains| > 0
    requires KeyOf(s) in contents && contents[KeyOf(s)] == s.handle && KeyOf(s) !in moved
    ensures var b := Bucket(s.hash, |chains|);
            Arranged(chains[b := [s] + chains[b]], moved + {KeyOf(s)}, contents)
  {
    var b := Bucket(s.hash, |chains|);
    var c := [s] + chains[b];
    var next := chains[b := c];
    assert forall q :: 0 < q < |c| ==> c[q] == chains[b][q - 1];
    PushKeeps(chains[b], s);
    forall d, x, y | 0 <= d < |next| && 0 <= x < y < |next[d]|
      ensures KeyOf(next[d][x]) != KeyOf(next[d][y])
    {
      if d == b && x == 0 {
        assert KeyOf(chains[b][y - 1]) in moved;
      }
    }
  }

  lemma {:induction false} PushKeeps(chain: seq<Slot>, s: Slot)
    ensures ChainKeys([s] + chain) == ChainKeys(chain) + {KeyOf(s)}
  {
    var c := [s] + chain;
    assert forall q :: 0 < q < |c| ==> c[q] == chain[q - 1];
    forall x | x in ChainKeys(c) ensures x in ChainKeys(chain) + {KeyOf(s)} {
      var t :| t in c && KeyOf(t) == x;
      var i :| 0 <= i < |c| && c[i] == t;
      if i > 0 { assert chain[i - 1] == t; }
    }
    forall x | x in ChainKeys(chain) ensures x in ChainKeys(c) {
      var t :| t in chain && KeyOf(t) == x;
      var i :| 0 <= i < |chain| && chain[i] == t;
      assert c[i + 1] == t;
    }
  }

  // Chain edits, each saying which keys remain.

  lemma {:induction false} ReplaceKeeps(chain: seq<Slot>, p: nat, s: Slot, k: (Bytes, U32))
    requires p < |chain| && KeyOf(chain[p]) == k && KeyOf(s) == k
    ensures ChainKeys(chain[..p] + [s] + chain[p + 1..]) == ChainKeys(chain)
  {
    var c := chain[..p] + [s] + chain[p + 1..];
    forall x | x in ChainKeys(chain) ensures x in ChainKeys(c) {
      var t :| t in chain && KeyOf(t) == x;
      var i :| 0 <= i < |chain| && chain[i] == t;
      if i == p { assert c[p] == s; } else { assert c[i] == t; }
    }
    forall x | x in ChainKeys(c) ensures x in ChainKeys(chain) {
      var t :| t in c && KeyOf(t) == x;
      var i :| 0 <= i < |c| && c[i] == t;
      if i == p { assert chain[p] in chain; } else { assert chain[i] == t; }
    }
  }

  lemma {:induction false} AppendKeeps(chain: seq<Slot>, s: Slot, k: (Bytes, U32))
    requires KeyOf(s) == k
    ensures ChainKeys(chain + [s]) == ChainKeys(chain) + {k}
  {
    var c := chain + [s];
    forall x | x in ChainKeys(c) ensures x in ChainKeys(chain) + {k} {
      var t :| t in c && KeyOf(t) == x;
      var i :| 0 <= i < |c| && c[i] == t;
      if i < |chain| { assert chain[i] == t; }
    }
    assert c[|chain|] == s;
    forall x | x in ChainKeys(chain) ensures x in ChainKeys(c) {
      var t :| t in chain && KeyOf(t) == x;
      var i :| 0 <= i < |chain| && chain[i] == t;
      assert c[i] == t;
    }
  }

  lemma {:induction false} RemoveKeeps(chain: seq<Slot>, p: nat, k: (Bytes, U32))
    requires p < |chain| && KeyOf(chain[p]) == k
    requires forall i, j :: 0 <= i < j < |chain| ==> KeyOf(chain[i]) != KeyOf(chain[j])
    ensures ChainKeys(chain[..p] + chain[p + 1..]) == ChainKeys(chain) - {k}
  {
    var c := chain[..p] + chain[p + 1..];
    assert |c| == |chain| - 1;
    assert forall i :: 0 <= i < p ==> c[i] == chain[i];
    assert forall i :: p <= i < |c| ==> c[i] == chain[i + 1];
    forall x | x in ChainKeys(c) ensures x in ChainKeys(chain) - {k} {
      var t :| t in c && KeyOf(t) == x;
      var i :| 0 <= i < |c| && c[i] == t;
      if i < p { assert chain[i] == t; } else { assert chain[i + 1] == t; }
    }
    forall x | x in ChainKeys(chain) - {k} ensures x in ChainKeys(c) {
      var t :| t in chain && KeyOf(t) == x;
      var i :| 0 <= i < |chain| && chain[i] == t;
      if i < p {
        assert c[i] == t;
      } else {
        assert i != p;
        assert c[i - 1] == t;
      }
    }
  }

  // ---------------------------------------------------------------------
  // One shard: LRUCache
  // ---------------------------------------------------------------------

  /** The fields of an LRUHandle that never change after Insert; the value
      pointer and the deleter are opaque numbers. */
  datatype Info = Info(key: Bytes, hash: U32, value: nat, deleter: nat, charge: nat)

  /** A call of an entry's deleter with its key and value. */
  datatype DeleterCall = DeleterCall(deleter: nat, key: Bytes, value: nat)

  /** Each handle at most once. */
  predicate NoDup(s: seq<Handle>)
  {
    s == [] || (s[0] !in s[1..] && NoDup(s[1..]))
  }

  lemma {:induction false} NoDupAppend(s: seq<Handle>, x: Handle)
    requires NoDup(s) && x !in s
    ensures NoDup(s + [x])
  {
    if s != [] {
      assert (s + [x])[1..] == s[1..] + [x];
      NoDupAppend(s[1..], x);
    }
  }

  /** LRU_Remove on a list: s with every occurrence of x taken out. */
  function Without(s: seq<Handle>, x: Handle): (r: seq<Handle>)
    ensures |r| <= |s|
  {
    if s == [] then []
    else if s[0] == x then Without(s[1..], x)
    else [s[0]] + Without(s[1..], x)
  }

  /** What Without keeps: every other element, and only those. */
  lemma {:induction false} WithoutMembers(s: seq<Handle>, x: Handle)
    ensures forall y :: y in Without(s, x) <==> y in s && y != x
  {
    if s != [] {
      WithoutMembers(s[1..], x);
      assert s == [s[0]] + s[1..];
    }
  }

  lemma {:induction false} WithoutAbsent(s: seq<Handle>, x: Handle)
    requires x !in s
    ensures Without(s, x) == s
  {
    if s != [] {
      assert s == [s[0]] + s[1..];
      WithoutAbsent(s[1..], x);
    }
  }

  /** Removal keeps the other elements in their order and one copy of each:
      a list without duplicates stays so. */
  lemma {:induction false} WithoutNoDup(s: seq<Handle>, x: Handle)
    requires NoDup(s)
    ensures NoDup(Without(s, x))
  {
    if s != [] {
      WithoutNoDup(s[1..], x);
      WithoutMembers(s[1..], x);
      if s[0] != x {
        var r := [s[0]] + Without(s[1..], x);
        assert r[0] == s[0] && r[1..] == Without(s[1..], x);
      }
    }
  }

  /** Appending an element and taking it out again gives the list back. */
  lemma {:induction false} WithoutAppend(s: seq<Handle>, x: Handle)
    requires x !in s
    ensures Without(s + [x], x) == s
  {
    if s == [] {
      assert [x][1..] == [];
    } else {
      assert (s + [x])[1..] == s[1..] + [x];
      assert s == [s[0]] + s[1..];
      WithoutAppend(s[1..], x);
    }
  }

  /** Taking an element out commutes with appending a different one. */
  lemma {:induction false} WithoutSnoc(s: seq<Handle>, x: Handle, p: Handle)
    requires x != p
    ensures Without(s + [x], p) == Without(s, p) + [x]
  {
    if s != [] {
      assert (s + [x])[1..] == s[1..] + [x];
      WithoutSnoc(s[1..], x, p);
    }
  }

  /** Taking out the oldest element of a list without duplicates. */
  lemma {:induction false} WithoutFirst(s: seq<Handle>)
    requires NoDup(s) && s != []
    ensures Without(s, s[0]) == s[1..]
  {
    WithoutAbsent(s[1..], s[0]);
  }

  /** The charge of an entry, 0 for a handle that is not live. */
  function ChargeOf(x: Handle, info: map<Handle, Info>): nat
  {
    if x in info then info[x].charge else 0
  }

  /** The sum of the charges of the listed entries. */
  function Charges(s: seq<Handle>, info: map<Handle, Info>): nat
  {
    if s == [] then 0 else ChargeOf(s[0], info) + Charges(s[1..], info)
  }

  lemma {:induction false} ChargesAgree(s: seq<Handle>, m1: map<Handle, Info>, m2: map<Handle, Info>)
    requires forall x :: x in s ==> ChargeOf(x, m1) == ChargeOf(x, m2)
    ensures Charges(s, m1) == Charges(s, m2)
  {
    if s != [] {
      assert s == [s[0]] + s[1..];
      ChargesAgree(s[1..], m1, m2);
    }
  }

  lemma {:induction false} ChargesAppend(s: seq<Handle>, x: Handle, m: map<Handle, Info>)
    ensures Charges(s + [x], m) == Charges(s, m) + ChargeOf(x, m)
  {
    if s != [] {
      assert (s + [x])[1..] == s[1..] + [x];
      ChargesAppend(s[1..], x, m);
    }
  }

  lemma {:induction false} ChargesWithout(s: seq<Handle>, x: Handle, m: map<Handle, Info>)
    requires NoDup(s) && x in s
    ensures Charges(Without(s, x), m) + ChargeOf(x, m) == Charges(s, m)
  {
    if s[0] == x {
      WithoutAbsent(s[1..], x);
    } else {
      assert x in s[1..] by {
        assert s == [s[0]] + s[1..];
      }
      ChargesWithout(s[1..], x, m);
    }
  }

  /** The list discipline of a shard. The live handles are those in `refs`
      and `info`, all below `next`, each holding a reference; `cached` (the
      in_cache flags) is a subset. lru_ holds cached entries with refs == 1
      and in_use_ cached entries with refs >= 2, each list without
      duplicates, and every cached entry is on one of them. */
  ghost predicate Listed(lru: seq<Handle>, inUse: seq<Handle>, info: map<Handle, Info>,
                         refs: map<Handle, nat>, cached: set<Handle>, next: nat)
  {
    NoDup(lru) && NoDup(inUse) &&
    (forall h :: h in lru ==> h in cached && h in refs && refs[h] == 1) &&
    (forall h :: h in inUse ==> h in cached && h in refs && refs[h] >= 2) &&
    (forall h :: h in cached ==> h in refs && (h in lru || h in inUse)) &&
    (forall h :: h in refs ==> h in info && h < next && refs[h] >= 1) &&
    (forall h :: h in info ==> h in refs)
  }

  /** The table maps the key and hash of each cached entry to it, except
      the entry `out`, which is cached but has just left the table. */
  ghost predicate Indexed(contents: map<(Bytes, U32), Handle>, info: map<Handle, Info>,
                          cached: set<Handle>, out: Option<Handle>)
  {
    (forall k :: k in contents ==>
       contents[k] in cached && contents[k] in info &&
       (info[contents[k]].key, info[contents[k]].hash) == k && out != Some(contents[k])) &&
    (forall h :: h in cached && out != Some(h) ==>
       h in info && (info[h].key, info[h].hash) in contents &&
       contents[(info[h].key, info[h].hash)] == h)
  }

  /** The charges on both lists. */
  function Usage(lru: seq<Handle>, inUse: seq<Handle>, info: map<Handle, Info>): nat
  {
    Charges(lru, info) + Charges(inUse, info)
  }

  /** Where an entry is follows from its flags: on lru_ exactly when cached
      with one reference, on in_use_ exactly when cached with more. */
  lemma {:induction false} Partition(lru: seq<Handle>, inUse: seq<Handle>, info: map<Handle, Info>,
                  refs: map<Handle, nat>, cached: set<Handle>, next: nat, h: Handle)
    requires Listed(lru, inUse, info, refs, cached, next) && h in refs
    ensures h in lru <==> h in cached && refs[h] == 1
    ensures h in inUse <==> h in cached && refs[h] >= 2
    ensures !(h in lru && h in inUse)
  {
  }

  /** Ref on an entry on lru_ moves it to the end of in_use_ with two
      references; the charges stay. */
  lemma {:induction false} RefMoves(lru: seq<Handle>, inUse: seq<Handle>, info: map<Handle, Info>,
                 refs: map<Handle, nat>, cached: set<Handle>, next: nat, e: Handle)
    requires Listed(lru, inUse, info, refs, cached, next)
    requires e in cached && e in refs && refs[e] == 1
    ensures e in lru && e !in inUse
    ensures Listed(Without(lru, e), inUse + [e], info, refs[e := 2], cached, next)
    ensures Usage(Without(lru, e), inUse + [e], info) == Usage(lru, inUse, info)
  {
    WithoutNoDup(lru, e);
    WithoutMembers(lru, e);
    NoDupAppend(inUse, e);
    ChargesWithout(lru, e, info);
    ChargesAppend(inUse, e, info);
  }

  /** Unref of an entry on in_use_ down to one reference moves it to the
      end of lru_; the charges stay. */
  lemma {:induction false} UnrefMoves(lru: seq<Handle>, inUse: seq<Handle>, info: map<Handle, Info>,
                   refs: map<Handle, nat>, cached: set<Handle>, next: nat, e: Handle)
    requires Listed(lru, inUse, info, refs, cached, next)
    requires e in cached && e in refs && refs[e] == 2
    ensures e in inUse && e !in lru
    ensures Listed(lru + [e], Without(inUse, e), info, refs[e := 1], cached, next)
    ensures Usage(lru + [e], Without(inUse, e), info) == Usage(lru, inUse, info)
  {
    WithoutNoDup(inUse, e);
    WithoutMembers(inUse, e);
    NoDupAppend(lru, e);
    ChargesWithout(inUse, e, info);
    ChargesAppend(lru, e, info);
  }

  /** A reference count change that keeps an entry on its list. */
  lemma {:induction false} RefsKept(lru: seq<Handle>, inUse: seq<Handle>, info: map<Handle, Info>,
                 refs: map<Handle, nat>, cached: set<Handle>, next: nat, e: Handle, r: nat)
    requires Listed(lru, inUse, info, refs, cached, next)
    requires e in refs && r >= 1 && (e in cached ==> (r == 1 <==> refs[e] == 1))
    ensures Listed(lru, inUse, info, refs[e := r], cached, next)
  {
  }

  /** Freeing an entry that is no longer cached. */
  lemma {:induction false} Freed(lru: seq<Handle>, inUse: seq<Handle>, info: map<Handle, Info>,
              refs: map<Handle, nat>, cached: set<Handle>, next: nat,
              contents: map<(Bytes, U32), Handle>, e: Handle)
    requires Listed(lru, inUse, info, refs, cached, next) && Indexed(contents, info, cached, None)
    requires e in refs && e !in cached
    ensures e !in lru && e !in inUse
    ensures Listed(lru, inUse, info - {e}, refs - {e}, cached, next)
    ensures Indexed(contents, info - {e}, cached, None)
    ensures Usage(lru, inUse, info - {e}) == Usage(lru, inUse, info)
  {
    ChargesAgree(lru, info, info - {e});
    ChargesAgree(inUse, info, info - {e});
  }

  /** FinishErase's first half: an entry already out of the table leaves
      its list and the cache, and its charge leaves the usage. */
  lemma {:induction false} Detached(lru: seq<Handle>, inUse: seq<Handle>, info: map<Handle, Info>,
                 refs: map<Handle, nat>, cached: set<Handle>, next: nat,
                 contents: map<(Bytes, U32), Handle>, e: Handle)
    requires Listed(lru, inUse, info, refs, cached, next) && Indexed(contents, info, cached, Some(e))
    requires e in cached
    ensures Listed(Without(lru, e), Without(inUse, e), info, refs, cached - {e}, next)
    ensures Indexed(contents, info, cached - {e}, None)
    ensures e in info && Usage(Without(lru, e), Without(inUse, e), info) + info[e].charge ==
            Usage(lru, inUse, info)
  {
    WithoutNoDup(lru, e);
    WithoutNoDup(inUse, e);
    WithoutMembers(lru, e);
    WithoutMembers(inUse, e);
    if e in lru {
      ChargesWithout(lru, e, info);
      WithoutAbsent(inUse, e);
    } else {
      ChargesWithout(inUse, e, info);
      WithoutAbsent(lru, e);
    }
  }

  /** Insert's new entry at address `next` when the cache is on: two
      references, cached, on in_use_, not yet in the table. */
  lemma {:induction false} AllocatedCached(lru: seq<Handle>, inUse: seq<Handle>, info: map<Handle, Info>,
                  refs: map<Handle, nat>, cached: set<Handle>, next: nat,
                  contents: map<(Bytes, U32), Handle>, x: Info)
    requires Listed(lru, inUse, info, refs, cached, next) && Indexed(contents, info, cached, None)
    ensures next !in info && next !in refs && next !in cached && next !in lru && next !in inUse
    ensures Listed(lru, inUse + [next], info[next := x], refs[next := 2], cached + {next}, next + 1)
    ensures Indexed(contents, info[next := x], cached + {next}, Some(next))
    ensures Usage(lru, inUse + [next], info[next := x]) == Usage(lru, inUse, info) + x.charge
  {
    ChargesAgree(lru, info, info[next := x]);
    ChargesAgree(inUse, info, info[next := x]);
    NoDupAppend(inUse, next);
    ChargesAppend(inUse, next, info[next := x]);
  }

  /** Insert's new entry when caching is off: one reference, on no list. */
  lemma {:induction false} AllocatedUncached(lru: seq<Handle>, inUse: seq<Handle>, info: map<Handle, Info>,
                  refs: map<Handle, nat>, cached: set<Handle>, next: nat,
                  contents: map<(Bytes, U32), Handle>, x: Info)
    requires Listed(lru, inUse, info, refs, cached, next) && Indexed(contents, info, cached, None)
    ensures next !in info && next !in refs && next !in cached && next !in lru && next !in inUse
    ensures Listed(lru, inUse, info[next := x], refs[next := 1], cached, next + 1)
    ensures Indexed(contents, info[next := x], cached, None)
    ensures Usage(lru, inUse, info[next := x]) == Usage(lru, inUse, info)
  {
    ChargesAgree(lru, info, info[next := x]);
    ChargesAgree(inUse, info, info[next := x]);
  }

  /** The table insert that follows: the key now maps to the new entry, and
      the entry it mapped to before, if any, is the one out of the table. */
  lemma {:induction false} Reindexed(contents: map<(Bytes, U32), Handle>, info: map<Handle, Info>,
                  cached: set<Handle>, n: Handle)
    requires Indexed(contents, info, cached, Some(n)) && n in cached && n in info
    ensures var k := (info[n].key, info[n].hash);
            var prev := if k in contents then Some(contents[k]) else None;
            Indexed(contents[k := n], info, cached, prev) &&
            (prev.Some? ==> prev.value in cached)
  {
    var k := (info[n].key, info[n].hash);
    var prev := if k in contents then Some(contents[k]) else None;
    var c := contents[k := n];
    forall h | h in cached && prev != Some(h)
      ensures h in info && (info[h].key, info[h].hash) in c && c[(info[h].key, info[h].hash)] == h
    {
      if h != n {
        assert (info[h].key, info[h].hash) != k;
      }
    }
  }

  /** A table remove: the entry the key mapped to is the one out of the
      table. */
  lemma {:induction false} Unindexed(contents: map<(Bytes, U32), Handle>, info: map<Handle, Info>,
                  cached: set<Handle>, k: (Bytes, U32))
    requires Indexed(contents, info, cached, None) && k in contents
    ensures Indexed(contents - {k}, info, cached, Some(contents[k]))
  {
    var c := contents - {k};
    forall k' | k' in c ensures c[k'] != contents[k] {
      assert (info[c[k']].key, info[c[k']].hash) == k';
    }
  }

  /** The state of one shard that its mutex guards: usage_, the lists
      lru_ and in_use_, and the LRUHandles it can reach. Each LRUHandle is
      an address in `refs` (its reference count); its fixed fields are in
      `info` and its in_cache flag is membership of `cached`. `next` is the
      next address the allocator hands out, and `deleterCalls` records the
      calls of the entries' deleters, in order. */
  datatype ShardState = ShardState(usage: nat, lru: seq<Handle>, inUse: seq<Handle>,
                                   info: map<Handle, Info>, refs: map<Handle, nat>,
                                   cached: set<Handle>, next: nat,
                                   deleterCalls: seq<DeleterCall>)

  /** The shard's invariant against the table's contents, with `out`
      cached but already taken out of the table. */
  ghost predicate Sound(s: ShardState, contents: map<(Bytes, U32), Handle>, out: Option<Handle>)
  {
    Listed(s.lru, s.inUse, s.info, s.refs, s.cached, s.next) &&
    Indexed(contents, s.info, s.cached, out) && s.usage == Usage(s.lru, s.inUse, s.info)
  }

  /** LRUCache::Ref: one more reference; an entry on lru_ moves to the
      newest end of in_use_. */
  function RefState(s: ShardState, e: Handle): ShardState
    requires e in s.refs
  {
    if e in s.cached && s.refs[e] == 1 then
      s.(lru := Without(s.lru, e), inUse := s.inUse + [e], refs := s.refs[e := 2])
    else
      s.(refs := s.refs[e := s.refs[e] + 1])
  }

  /** LRUCache::Unref: one reference less. The last one frees the entry
      and calls its deleter; an entry on in_use_ that only the cache still
      holds moves to the newest end of lru_. */
  function UnrefState(s: ShardState, e: Handle): ShardState
    requires e in s.refs && e in s.info && s.refs[e] > 0
  {
    if s.refs[e] == 1 then
      s.(info := s.info - {e}, refs := s.refs - {e},
         deleterCalls := s.deleterCalls + [DeleterCall(s.info[e].deleter, s.info[e].key, s.info[e].value)])
    else if e in s.cached && s.refs[e] == 2 then
      s.(lru := s.lru + [e], inUse := Without(s.inUse, e), refs := s.refs[e := 1])
    else
      s.(refs := s.refs[e := s.refs[e] - 1])
  }

  /** The first half of FinishErase: the entry leaves its list and the
      cache, and its charge leaves usage_. */
  function DetachState(s: ShardState, e: Handle): ShardState
    requires e in s.info && s.info[e].charge <= s.usage
  {
    s.(lru := Without(s.lru, e), inUse := Without(s.inUse, e), cached := s.cached - {e},
       usage := s.usage - s.info[e].charge)
  }

  /** Whether FinishErase can take `r`. */
  predicate Erasable(s: ShardState, r: Option<Handle>)
  {
    r.Some? ==> r.value in s.info && s.info[r.value].charge <= s.usage &&
                r.value in s.refs && s.refs[r.value] > 0
  }

  /** LRUCache::FinishErase on the entry a table removal returned. */
  function EraseState(s: ShardState, r: Option<Handle>): ShardState
    requires Erasable(s, r)
  {
    if r.None? then s else UnrefState(DetachState(s, r.value), r.value)
  }

  /** The first half of Insert: the new entry at address `next`, with the
      caller's reference and, when the cache is on, the cache's reference,
      the in_cache flag, a place at the newest end of in_use_ and its
      charge in usage_. */
  function AllocState(s: ShardState, x: Info, cache: bool): ShardState
  {
    if cache then
      s.(inUse := s.inUse + [s.next], info := s.info[s.next := x], refs := s.refs[s.next := 2],
         cached := s.cached + {s.next}, usage := s.usage + x.charge, next := s.next + 1)
    else
      s.(info := s.info[s.next := x], refs := s.refs[s.next := 1], next := s.next + 1)
  }

  /** `a` is what is left of `b` after dropping some of its first elements. */
  predicate IsSuffix(a: seq<Handle>, b: seq<Handle>)
    decreases |b|
  {
    a == b || (b != [] && IsSuffix(a, b[1..]))
  }

  lemma {:induction false} SuffixHead(a: seq<Handle>, b: seq<Handle>)
    requires IsSuffix(a, b) && a != []
    ensures a[0] in b && IsSuffix(a[1..], b)
  {
    assert b == [b[0]] + b[1..];
    if a != b {
      SuffixHead(a, b[1..]);
    }
  }

  /** The lru_ list after Insert's FinishErase of the entry it replaced. */
  function Dropped(lru: seq<Handle>, prev: Option<Handle>): seq<Handle>
  {
    if prev.Some? then Without(lru, prev.value) else lru
  }

  lemma {:induction false} RefKeeps(s: ShardState, c: map<(Bytes, U32), Handle>, e: Handle)
    requires Sound(s, c, None) && e in s.refs
    ensures Sound(RefState(s, e), c, None)
  {
    if e in s.cached && s.refs[e] == 1 {
      RefMoves(s.lru, s.inUse, s.info, s.refs, s.cached, s.next, e);
    } else {
      RefsKept(s.lru, s.inUse, s.info, s.refs, s.cached, s.next, e, s.refs[e] + 1);
    }
  }

  lemma {:induction false} UnrefKeeps(s: ShardState, c: map<(Bytes, U32), Handle>, e: Handle)
    requires Sound(s, c, None) && e in s.refs && !(e in s.cached && s.refs[e] == 1)
    ensures e in s.info && s.refs[e] > 0
    ensures Sound(UnrefState(s, e), c, None)
  {
    if s.refs[e] == 1 {
      Freed(s.lru, s.inUse, s.info, s.refs, s.cached, s.next, c, e);
    } else if e in s.cached && s.refs[e] == 2 {
      UnrefMoves(s.lru, s.inUse, s.info, s.refs, s.cached, s.next, e);
    } else {
      RefsKept(s.lru, s.inUse, s.info, s.refs, s.cached, s.next, e, s.refs[e] - 1);
    }
  }

  lemma {:induction false} DetachKeeps(s: ShardState, c: map<(Bytes, U32), Handle>, e: Handle)
    requires Sound(s, c, Some(e)) && e in s.cached
    ensures e in s.info && s.info[e].charge <= s.usage
    ensures Sound(DetachState(s, e), c, None)
    ensures e in s.refs && e !in DetachState(s, e).cached
  {
    Detached(s.lru, s.inUse, s.info, s.refs, s.cached, s.next, c, e);
  }

  /** FinishErase leaves the shard sound, whatever the table removal
      returned. */
  lemma {:induction false} EraseKeeps(s: ShardState, c: map<(Bytes, U32), Handle>, r: Option<Handle>)
    requires Sound(s, c, r) && (r.Some? ==> r.value in s.cached)
    ensures Erasable(s, r) && Sound(EraseState(s, r), c, None)
  {
    if r.Some? {
      DetachKeeps(s, c, r.value);
      UnrefKeeps(DetachState(s, r.value), c, r.value);
    }
  }

  lemma {:induction false} AllocKeeps(s: ShardState, c: map<(Bytes, U32), Handle>, x: Info, cache: bool)
    requires Sound(s, c, None)
    ensures s.next !in s.refs && s.next !in s.lru && s.next !in s.inUse
    ensures cache ==> Sound(AllocState(s, x, cache), c, Some(s.next))
    ensures !cache ==> Sound(AllocState(s, x, cache), c, None)
  {
    if cache {
      AllocatedCached(s.lru, s.inUse, s.info, s.refs, s.cached, s.next, c, x);
    } else {
      AllocatedUncached(s.lru, s.inUse, s.info, s.refs, s.cached, s.next, c, x);
    }
  }

  /** FinishErase touches only the erased entry: the lists lose it and
      every other entry keeps its count, fields and in_cache flag. */
  lemma {:induction false} EraseOthers(s: ShardState, r: Option<Handle>, h: Handle)
    requires Erasable(s, r) && h in s.refs && r != Some(h)
    ensures EraseState(s, r).lru == Dropped(s.lru, r) && EraseState(s, r).inUse == Dropped(s.inUse, r)
    ensures h in EraseState(s, r).refs && EraseState(s, r).refs[h] == s.refs[h]
    ensures h in EraseState(s, r).info <==> h in s.info
    ensures h in s.info ==> EraseState(s, r).info[h] == s.info[h]
    ensures h in EraseState(s, r).cached <==> h in s.cached
  {
  }

  /** A cached entry is the one the table holds under its key and hash. */
  lemma {:induction false} CachedIndexed(s: ShardState, c: map<(Bytes, U32), Handle>, h: Handle)
    requires Sound(s, c, None) && h in s.cached
    ensures h in s.info && (s.info[h].key, s.info[h].hash) in c && c[(s.info[h].key, s.info[h].hash)] == h
  {
  }

  /** The oldest entry of lru_ gone: off the list, out of the cache,
      freed, its deleter called and its charge taken off usage_. */
  function Evicted(s: ShardState): ShardState
    requires s.lru != [] && s.lru[0] in s.info && s.info[s.lru[0]].charge <= s.usage
  {
    var v := s.lru[0];
    s.(lru := s.lru[1..], info := s.info - {v}, refs := s.refs - {v}, cached := s.cached - {v},
       usage := s.usage - s.info[v].charge,
       deleterCalls := s.deleterCalls + [DeleterCall(s.info[v].deleter, s.info[v].key, s.info[v].value)])
  }

  /** Evicting the oldest entry of lru_: it is in the table under its own
      key, and FinishErase of it frees it, takes it off the front of lru_
      and leaves in_use_ alone. */
  lemma {:induction false} OldestErased(s: ShardState, c: map<(Bytes, U32), Handle>)
    requires Sound(s, c, None) && s.lru != []
    ensures var v := s.lru[0];
            v in s.info && v in s.cached && s.refs[v] == 1 &&
            (s.info[v].key, s.info[v].hash) in c && c[(s.info[v].key, s.info[v].hash)] == v
    ensures var v := s.lru[0];
            var k := (s.info[v].key, s.info[v].hash);
            Sound(s, c - {k}, Some(v)) && Erasable(s, Some(v)) &&
            EraseState(s, Some(v)) == Evicted(s)
  {
    var v := s.lru[0];
    var k := (s.info[v].key, s.info[v].hash);
    Partition(s.lru, s.inUse, s.info, s.refs, s.cached, s.next, v);
    Unindexed(c, s.info, s.cached, k);
    DetachKeeps(s, c - {k}, v);
    WithoutFirst(s.lru);
    WithoutAbsent(s.inUse, v);
  }

  /** Entries off lru_ in `pre` are as they were: eviction takes only
      entries on lru_. */
  ghost predicate Untouched(pre: ShardState, s: ShardState)
  {
    forall h :: h in pre.refs && h in pre.info && h !in pre.lru ==>
      h in s.refs && s.refs[h] == pre.refs[h] &&
      h in s.info && s.info[h] == pre.info[h] && (h in s.cached <==> h in pre.cached)
  }

  /** Eviction's progress from `pre`: a suffix of lru_ is left, in_use_ is as
      it was, and every entry that has left lru_ is freed. */
  ghost predicate EvictedFrom(pre: ShardState, s: ShardState)
  {
    IsSuffix(s.lru, pre.lru) && s.inUse == pre.inUse && Untouched(pre, s) &&
    s.refs.Keys <= pre.refs.Keys &&
    forall h :: h in pre.lru && h !in s.lru ==> h !in s.refs
  }

  lemma {:induction false} EvictStep(pre: ShardState, s: ShardState, c: map<(Bytes, U32), Handle>)
    requires EvictedFrom(pre, s) && Sound(s, c, None) && s.lru != []
    requires s.lru[0] in s.info && s.info[s.lru[0]].charge <= s.usage
    ensures EvictedFrom(pre, Evicted(s))
  {
    SuffixHead(s.lru, pre.lru);
    assert s.lru == [s.lru[0]] + s.lru[1..];
  }

  /** A Lookup that finds `e`, followed by the Release of the handle it
      returned: an entry on lru_ comes back as its newest element, with
      the other entries in their order; any other entry is left as it
      was. */
  lemma {:induction false} LookupThenRelease(s: ShardState, c: map<(Bytes, U32), Handle>, e: Handle)
    requires Sound(s, c, None) && e in s.refs
    ensures var r := RefState(s, e);
            e in r.refs && e in r.info && r.refs[e] > 0 &&
            UnrefState(r, e) == if e in s.cached && s.refs[e] == 1
                                then s.(lru := Without(s.lru, e) + [e])
                                else s
  {
    var r := RefState(s, e);
    Partition(s.lru, s.inUse, s.info, s.refs, s.cached, s.next, e);
    if e in s.cached && s.refs[e] == 1 {
      WithoutAppend(s.inUse, e);
      assert s.refs[e := 2][e := 1] == s.refs;
    } else {
      assert s.refs[e := s.refs[e] + 1][e := s.refs[e]] == s.refs;
    }
  }

  /** Insert before its eviction loop: the new entry allocated and, when
      the cache is on, FinishErase of the entry `prev` the table insert
      displaced. */
  function Placed(s: ShardState, x: Info, cache: bool, prev: Option<Handle>): ShardState
    requires cache ==> Erasable(AllocState(s, x, true), prev)
  {
    if cache then EraseState(AllocState(s, x, true), prev) else AllocState(s, x, false)
  }

  /** Every entry of `pre` off lru_, other than `out`, keeps its reference
      count, its fields and its in_cache flag in `s`. */
  ghost predicate UntouchedBut(pre: ShardState, s: ShardState, out: Option<Handle>)
  {
    forall h :: h in pre.refs && h in pre.info && h !in pre.lru && out != Some(h) ==>
      h in s.refs && s.refs[h] == pre.refs[h] &&
      h in s.info && s.info[h] == pre.info[h] && (h in s.cached <==> h in pre.cached)
  }

  /** Insert's first half with the cache on: the new entry at `next` is
      cached with two references at the newest end of in_use_, `prev`
      leaves both lists, and every other entry off lru_ is as it was. */
  lemma {:induction false} PlacedCached(s: ShardState, x: Info, prev: Option<Handle>)
    requires Listed(s.lru, s.inUse, s.info, s.refs, s.cached, s.next)
    requires prev.Some? ==> prev.value in s.cached
    requires Erasable(AllocState(s, x, true), prev)
    ensures var m := Placed(s, x, true, prev);
            s.next !in s.refs && s.next in m.refs && m.refs[s.next] == 2 &&
            s.next in m.info && m.info[s.next] == x && s.next in m.cached &&
            m.lru == Dropped(s.lru, prev) && m.inUse == Dropped(s.inUse, prev) + [s.next] &&
            UntouchedBut(s, m, prev) &&
            (prev.Some? && prev.value in s.lru ==> prev.value !in m.refs)
  {
    var e := s.next;
    var a := AllocState(s, x, true);
    var m := Placed(s, x, true, prev);
    assert e !in s.refs;
    EraseOthers(a, prev, e);
    if prev.Some? {
      WithoutSnoc(s.inUse, e, prev.value);
      if prev.value in s.lru {
        Partition(s.lru, s.inUse, s.info, s.refs, s.cached, s.next, prev.value);
      }
    }
    forall h | h in s.refs && h in s.info && h !in s.lru && prev != Some(h)
      ensures h in m.refs && m.refs[h] == s.refs[h] && h in m.info && m.info[h] == s.info[h] &&
              (h in m.cached <==> h in s.cached)
    {
      EraseOthers(a, prev, h);
    }
  }

  /** Insert's first half with the cache off: the new entry at `next`
      holds only the caller's reference and is on no list. */
  lemma {:induction false} PlacedUncached(s: ShardState, x: Info)
    requires Listed(s.lru, s.inUse, s.info, s.refs, s.cached, s.next)
    ensures var m := Placed(s, x, false, None);
            s.next !in s.refs && s.next in m.refs && m.refs[s.next] == 1 &&
            s.next in m.info && m.info[s.next] == x && s.next !in m.cached &&
            m.lru == s.lru && m.inUse == s.inUse && UntouchedBut(s, m, None)
  {
    assert s.next !in s.refs;
  }

  /** Eviction after Insert's first half `m` (from `s`) keeps the new entry
      `e`, which is off lru_, and only removes entries of lru_: what was
      true of `m` against `s` stays true of the final state `t`. */
  lemma {:induction false} EvictedAfterPlace(s: ShardState, m: ShardState, t: ShardState,
                                             prev: Option<Handle>, e: Handle)
    requires EvictedFrom(m, t) && UntouchedBut(s, m, prev)
    requires e in m.refs && e in m.info && e !in m.lru
    requires m.lru == Dropped(s.lru, prev)
    requires prev.Some? && prev.value in s.lru ==> prev.value !in m.refs
    ensures e in t.refs && t.refs[e] == m.refs[e] && e in t.info && t.info[e] == m.info[e]
    ensures e in t.cached <==> e in m.cached
    ensures IsSuffix(t.lru, Dropped(s.lru, prev)) && t.inUse == m.inUse
    ensures UntouchedBut(s, t, prev)
    ensures forall h :: h in s.lru && h !in t.lru ==> h !in t.refs
  {
    if prev.Some? {
      WithoutMembers(s.lru, prev.value);
    }
    forall h | h in s.lru && h !in t.lru
      ensures h !in t.refs
    {
      if prev == Some(h) {
        assert h !in m.refs;
      } else {
        assert h in m.lru;
      }
    }
  }

  /** What LRUCache::Insert promises about the shard, from the state `pre`
      it starts in and the entry `prev` it replaces (None when caching is
      off or the key was absent) to the state `s` it ends in: the new entry
      `e` at address `next` with the caller's reference, and when the
      capacity is positive also the cache's, cached at the newest end of
      in_use_ in place of `prev`; usage_ within the capacity unless lru_ is
      empty; lru_ a suffix of the old one without `prev`, every entry that
      left it freed; every other entry off lru_ as it was. */
  ghost predicate InsertEffect(pre: ShardState, prev: Option<Handle>, s: ShardState,
                               capacity: nat, e: Handle, x: Info)
  {
    e == pre.next && e !in pre.refs && e in s.info && s.info[e] == x && e in s.refs &&
    (capacity > 0 ==> e in s.cached && s.refs[e] == 2) &&
    (capacity == 0 ==> e !in s.cached && s.refs[e] == 1) &&
    (s.usage <= capacity || s.lru == []) &&
    IsSuffix(s.lru, Dropped(pre.lru, prev)) &&
    s.inUse == (if capacity > 0 then Dropped(pre.inUse, prev) + [e] else pre.inUse) &&
    UntouchedBut(pre, s, prev) &&
    (forall h :: h in pre.lru && h !in s.lru ==> h !in s.refs)
  }

  /** A cache shard. */
  class LRUCache {
    /** capacity_: the charge the shard may hold. */
    var capacity: nat
    var state: ShardState
    const table: HandleTable

    ghost predicate Valid()
      reads this, table, table.list
    {
      table.Valid() && Sound(state, table.contents, None)
    }

    /** LRUCache(): empty lists, no usage; the capacity is set later. */
    constructor ()
      ensures Valid() && fresh(table) && fresh(table.list)
      ensures capacity == 0 && state == ShardState(0, [], [], map[], map[], {}, 0, [])
      ensures table.contents == map[]
    {
      capacity := 0;
      state := ShardState(0, [], [], map[], map[], {}, 0, []);
      table := new HandleTable();
    }

    method SetCapacity(c: nat)
      modifies this
      ensures capacity == c && state == old(state)
    {
      capacity := c;
    }

    /** TotalCharge: usage_, the sum of the charges of the cached entries. */
    method TotalCharge() returns (r: nat)
      requires Valid()
      ensures r == state.usage == Charges(state.lru, state.info) + Charges(state.inUse, state.info)
    {
      r := state.usage;
    }

    method Ref(e: Handle)
      requires Sound(state, table.contents, None) && e in state.refs
      modifies this
      ensures Sound(state, table.contents, None)
      ensures state == RefState(old(state), e) && capacity == old(capacity)
    {
      RefKeeps(state, table.contents, e);
      state := RefState(state, e);
    }

    method Unref(e: Handle)
      requires Sound(state, table.contents, None) && e in state.refs
      requires !(e in state.cached && state.refs[e] == 1)
      modifies this
      ensures Sound(state, table.contents, None)
      ensures e in old(state.info) && old(state.refs[e]) > 0
      ensures state == UnrefState(old(state), e) && capacity == old(capacity)
    {
      UnrefKeeps(state, table.contents, e);
      state := UnrefState(state, e);
    }

    /** FinishErase: finish removing the entry a table removal returned,
        if any; the result says whether there was one. */
    method FinishErase(r: Option<Handle>) returns (erased: bool)
      requires Sound(state, table.contents, r) && (r.Some? ==> r.value in state.cached)
      modifies this
      ensures Sound(state, table.contents, None) && capacity == old(capacity)
      ensures erased == r.Some?
      ensures Erasable(old(state), r) && state == EraseState(old(state), r)
    {
      EraseKeeps(state, table.contents, r);
      if r.Some? {
        DetachKeeps(state, table.contents, r.value);
        state := DetachState(state, r.value);
        Unref(r.value);
      }
      erased := r.Some?;
    }

    /** Lookup: the entry cached under key and hash, with one more
        reference for the caller. */
    method Lookup(key: Bytes, hash: U32) returns (r: Option<Handle>)
      requires Valid()
      modifies this
      ensures Valid() && capacity == old(capacity)
      ensures r == table.Get(key, hash)
      ensures r.Some? ==> old(r.value in state.refs) && state == RefState(old(state), r.value)
      ensures r.None? ==> state == old(state)
    {
      r := table.Lookup(key, hash);
      if r.Some? {
        Ref(r.value);
      }
    }

    /** Release: the caller gives back its reference. */
    method Release(h: Handle)
      requires Valid() && h in state.refs && !(h in state.cached && state.refs[h] == 1)
      modifies this
      ensures Valid() && capacity == old(capacity)
      ensures state == UnrefState(old(state), h)
    {
      Unref(h);
    }

    /** Insert's eviction step: the oldest entry on lru_ leaves the table
        and is freed. */
    method EvictOldest()
      requires Valid() && state.lru != []
      modifies this, table, table.list
      ensures Valid() && capacity == old(capacity)
      ensures old(state.lru[0]) in old(state.info) && old(state.info[state.lru[0]].charge) <= old(state.usage)
      ensures state == Evicted(old(state)) && table.list == old(table.list)
    {
      OldestErased(state, table.contents);
      var v := state.lru[0];
      var r := table.Remove(state.info[v].key, state.info[v].hash);
      var erased := FinishErase(r);
    }

    /** Insert's eviction loop: the oldest unused entries leave while
        usage_ exceeds the capacity. Only entries on lru_ go. */
    method EvictOverCapacity()
      requires Valid()
      modifies this, table, table.list
      ensures Valid() && capacity == old(capacity)
      ensures state.usage <= capacity || state.lru == []
      ensures EvictedFrom(old(state), state) && table.list == old(table.list)
    {
      ghost var pre := state;
      while state.usage > capacity && state.lru != []
        invariant Valid() && capacity == old(capacity) && table.list == old(table.list)
        invariant EvictedFrom(pre, state)
        decreases |state.lru|
      {
        OldestErased(state, table.contents);
        EvictStep(pre, state, table.contents);
        EvictOldest();
      }
    }

    /** Insert before eviction: the new entry allocated and, when the
        cache is on, put in the table in place of the entry it held under
        the key, which FinishErase takes off the lists. */
    method Place(key: Bytes, hash: U32, value: nat, charge: nat, deleter: nat) returns (e: Handle)
      requires Valid()
      modifies this, table, table.list
      ensures Valid() && capacity == old(capacity)
      ensures table.list == old(table.list) || fresh(table.list)
      ensures e == old(state.next)
      ensures capacity > 0 ==> table.Get(key, hash) == Some(e)
      ensures var prev := if capacity > 0 then old(table.Get(key, hash)) else None;
              (prev.Some? ==> prev.value in old(state.cached)) &&
              (capacity > 0 ==> Erasable(AllocState(old(state), Info(key, hash, value, deleter, charge), true), prev)) &&
              state == Placed(old(state), Info(key, hash, value, deleter, charge), capacity > 0, prev)
    {
      var x := Info(key, hash, value, deleter, charge);
      e := state.next;
      AllocKeeps(state, table.contents, x, capacity > 0);
      state := AllocState(state, x, capacity > 0);
      if capacity > 0 {
        Reindexed(table.contents, state.info, state.cached, e);
        var prev := table.Insert(Slot(key, hash, e));
        var erased := FinishErase(prev);
      }
    }

    /** Insert: a new entry for key and hash, held by the caller. With a
        capacity it is cached and replaces the entry cached under the same
        key; then the oldest unused entries are evicted while usage_
        exceeds the capacity. Nothing else changes: in_use_ loses the
        replaced entry and gains the new one, and every entry off lru_
        other than the replaced one keeps its count, fields and flag. */
    method Insert(key: Bytes, hash: U32, value: nat, charge: nat, deleter: nat) returns (e: Handle)
      requires Valid()
      modifies this, table, table.list
      ensures Valid() && capacity == old(capacity)
      ensures table.list == old(table.list) || fresh(table.list)
      ensures InsertEffect(old(state), if capacity > 0 then old(table.Get(key, hash)) else None,
                           state, capacity, e, Info(key, hash, value, deleter, charge))
      ensures capacity > 0 ==> table.Get(key, hash) == Some(e)
    {
      ghost var s0 := state;
      ghost var prev := if capacity > 0 then table.Get(key, hash) else None;
      ghost var x := Info(key, hash, value, deleter, charge);
      e := Place(key, hash, value, charge, deleter);
      if capacity > 0 {
        PlacedCached(s0, x, prev);
      } else {
        PlacedUncached(s0, x);
      }
      ghost var m := state;
      EvictOverCapacity();
      EvictedAfterPlace(s0, m, state, prev, e);
      if capacity > 0 {
        CachedIndexed(state, table.contents, e);
      }
    }

    /** Erase: the entry cached under key and hash, if any, leaves the
        table and the cache; it is freed unless a client still holds it. */
    method Erase(key: Bytes, hash: U32)
      requires Valid()
      modifies this, table, table.list
      ensures Valid() && capacity == old(capacity)
      ensures table.list == old(table.list)
      ensures table.contents == old(table.contents) - {(key, hash)}
      ensures Erasable(old(state), old(table.Get(key, hash)))
      ensures state == EraseState(old(state), old(table.Get(key, hash)))
    {
      ghost var c := table.contents;
      var r := table.Remove(key, hash);
      if r.Some? {
        Unindexed(c, state.info, state.cached, (key, hash));
      } else {
        assert table.contents == c;
      }
      var erased := FinishErase(r);
    }

    /** Prune: every entry no client holds leaves the cache and is
        freed; the entries in use stay. */
    method Prune()
      requires Valid()
      modifies this, table, table.list
      ensures Valid() && capacity == old(capacity)
      ensures table.list == old(table.list)
      ensures state.lru == [] && state.inUse == old(state.inUse)
      ensures forall h :: h in old(state.lru) ==> h !in state.refs
      ensures Untouched(old(state), state)
    {
      ghost var pre := state;
      while state.lru != []
        invariant Valid() && capacity == old(capacity) && table.list == old(table.list)
        invariant EvictedFrom(pre, state)
        decreases |state.lru|
      {
        OldestErased(state, table.contents);
        EvictStep(pre, state, table.contents);
        EvictOldest();
      }
    }
  }
}
