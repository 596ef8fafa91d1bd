// Model of db/skiplist.h: a skip list whose nodes live in an arena and are
// never deleted. A node is identified by its slot number (0 is the head);
// each node stores its key and one forward link per level. The ghost state
// records the level-0 order of the nodes (`chain`) and each node's place in
// it (`pos`); every link must equal the node that the level structure
// determines, which makes every level a subsequence of the level below.
module SkipLists {
  import opened Arenas

  /** kMaxHeight. */
  const kMaxHeight: nat := 12
  /** kBranching: a node reaches the next level with probability 1/4. */
  const kBranching: nat := 4
  /** The NULL link. */
  const NIL: int := -1

  // ---------------------------------------------------------------------
  // The comparator and sorted key sequences
  // ---------------------------------------------------------------------

  /** What the list needs of its comparator: sign-antisymmetry and a
      transitive "less than". Keys that compare equal need not be identical. */
  ghost predicate IsOrder<K(!new)>(cmp: (K, K) -> int)
  {
    (forall a, b :: cmp(a, b) < 0 <==> cmp(b, a) > 0) &&
    (forall a, b, c {:trigger Via(a, b, c)} :: cmp(a, b) < 0 && cmp(b, c) < 0 ==> cmp(a, c) < 0)
  }

  /** Names the step a < b < c, so that a proof can ask for transitivity
      through b without every comparison in scope asking for it. */
  ghost predicate Via<K>(a: K, b: K, c: K)
  {
    true
  }

  lemma Transitive<K(!new)>(cmp: (K, K) -> int, a: K, b: K, c: K)
    requires IsOrder(cmp) && cmp(a, b) < 0 && cmp(b, c) < 0
    ensures cmp(a, c) < 0
  {
    assert Via(a, b, c);
  }

  /** Consecutive keys strictly ascend. */
  ghost predicate SortedBy<K>(ks: seq<K>, cmp: (K, K) -> int)
  {
    forall i :: 0 <= i < |ks| - 1 ==> Ascends(ks, cmp, i)
  }

  /** The keys at i and i + 1 ascend. Named, so that sortedness is used at
      the places a proof asks for and not at every pair of indices in scope. */
  ghost predicate Ascends<K>(ks: seq<K>, cmp: (K, K) -> int, i: int)
  {
    0 <= i < |ks| - 1 ==> cmp(ks[i], ks[i + 1]) < 0
  }

  lemma {:induction false} SortedPairwise<K(!new)>(ks: seq<K>, cmp: (K, K) -> int, i: nat, j: nat)
    requires IsOrder(cmp) && SortedBy(ks, cmp)
    requires i < j < |ks|
    ensures cmp(ks[i], ks[j]) < 0
    decreases j - i
  {
    assert Ascends(ks, cmp, i);
    if i + 1 < j {
      SortedPairwise(ks, cmp, i + 1, j);
      Transitive(cmp, ks[i], ks[i + 1], ks[j]);
    }
  }

  /** The index of the first key that is not less than target (|ks| if none). */
  function LowerBoundFrom<K>(ks: seq<K>, target: K, cmp: (K, K) -> int, i: nat): (lb: nat)
    requires i <= |ks|
    ensures i <= lb <= |ks|
    ensures forall k :: i <= k < lb ==> cmp(ks[k], target) < 0
    ensures lb < |ks| ==> cmp(ks[lb], target) >= 0
    decreases |ks| - i
  {
    if i == |ks| || cmp(ks[i], target) >= 0 then i else LowerBoundFrom(ks, target, cmp, i + 1)
  }

  function LowerBound<K>(ks: seq<K>, target: K, cmp: (K, K) -> int): (lb: nat)
    ensures lb <= |ks|
    ensures forall k :: 0 <= k < lb ==> cmp(ks[k], target) < 0
    ensures lb < |ks| ==> cmp(ks[lb], target) >= 0
  {
    LowerBoundFrom(ks, target, cmp, 0)
  }

  /** In a sorted sequence a key below target lies before the lower bound ... */
  lemma LowerBoundPast<K(!new)>(ks: seq<K>, target: K, cmp: (K, K) -> int, j: nat)
    requires IsOrder(cmp) && SortedBy(ks, cmp)
    requires j < |ks| && cmp(ks[j], target) < 0
    ensures j < LowerBound(ks, target, cmp)
  {
    var lb := LowerBound(ks, target, cmp);
    if lb < j {
      SortedPairwise(ks, cmp, lb, j);
      Transitive(cmp, ks[lb], ks[j], target);
      assert false;
    }
  }

  /** ... and every key from the lower bound on is not below it. */
  lemma LowerBoundRest<K(!new)>(ks: seq<K>, target: K, cmp: (K, K) -> int, j: nat)
    requires IsOrder(cmp) && SortedBy(ks, cmp)
    requires LowerBound(ks, target, cmp) <= j < |ks|
    ensures cmp(ks[j], target) >= 0
  {
    var lb := LowerBound(ks, target, cmp);
    if lb < j {
      SortedPairwise(ks, cmp, lb, j);
      if cmp(ks[j], target) < 0 {
        Transitive(cmp, ks[lb], ks[j], target);
      }
    }
  }

  /** A sorted sequence holds a key equal to target exactly when the key at
      the lower bound is equal to it. */
  lemma LowerBoundFindsEqual<K(!new)>(ks: seq<K>, target: K, cmp: (K, K) -> int)
    requires IsOrder(cmp) && SortedBy(ks, cmp)
    ensures (exists i :: 0 <= i < |ks| && cmp(target, ks[i]) == 0) <==>
            (LowerBound(ks, target, cmp) < |ks| && cmp(target, ks[LowerBound(ks, target, cmp)]) == 0)
  {
    var lb := LowerBound(ks, target, cmp);
    if i :| 0 <= i < |ks| && cmp(target, ks[i]) == 0 {
      assert lb <= i;
      if lb < i {
        SortedPairwise(ks, cmp, lb, i);
        if cmp(target, ks[lb]) < 0 {
          Transitive(cmp, target, ks[lb], ks[i]);
        }
      }
    }
  }

  /** Putting key at its lower bound keeps a sorted sequence sorted when no
      key equal to it is present. */
  lemma InsertKeepsSorted<K(!new)>(ks: seq<K>, key: K, cmp: (K, K) -> int)
    requires IsOrder(cmp) && SortedBy(ks, cmp)
    requires forall i :: 0 <= i < |ks| ==> cmp(key, ks[i]) != 0
    ensures var p := LowerBound(ks, key, cmp);
      SortedBy(ks[..p] + [key] + ks[p..], cmp)
  {
    var p := LowerBound(ks, key, cmp);
    var r := ks[..p] + [key] + ks[p..];
    forall i | 0 <= i < |r| - 1
      ensures Ascends(r, cmp, i)
    {
      if i + 1 < p {
        assert r[i] == ks[i] && r[i + 1] == ks[i + 1];
        assert Ascends(ks, cmp, i);
      } else if i + 1 == p {
        assert r[i] == ks[i] && r[i + 1] == key;
      } else if i == p {
        assert r[i] == key && r[i + 1] == ks[p];
        assert cmp(ks[p], key) >= 0 && cmp(key, ks[p]) != 0;
      } else {
        assert r[i] == ks[i - 1] && r[i + 1] == ks[i];
        assert Ascends(ks, cmp, i - 1);
      }
    }
  }

  // ---------------------------------------------------------------------
  // The level structure
  // ---------------------------------------------------------------------

  /** The height of node n (0 for a slot that does not exist). */
  function Height(hts: seq<nat>, n: int): nat
  {
    if 0 <= n < |hts| then hts[n] else 0
  }

  /** The first index j >= i of the level-0 order whose node reaches above
      level l, or |chain| when there is none. */
  function NextIndex(chain: seq<nat>, hts: seq<nat>, i: nat, l: nat): (j: nat)
    requires i <= |chain|
    ensures i <= j <= |chain|
    ensures j < |chain| ==> Height(hts, chain[j]) > l
    ensures forall k :: i <= k < j ==> Height(hts, chain[k]) <= l
    decreases |chain| - i
  {
    if i == |chain| then i
    else if Height(hts, chain[i]) > l then i
    else NextIndex(chain, hts, i + 1, l)
  }

  /** The node at index j of the level-0 order, NIL past its end. */
  function NodeAt(chain: seq<nat>, j: nat): int
  {
    if j < |chain| then chain[j] else NIL
  }

  /** chain and pos are inverse: the head (node 0) is before index 0 and
      every other node n sits at index pos[n] - 1. */
  ghost predicate Shape(chain: seq<nat>, pos: seq<nat>, nodes: nat)
  {
    nodes >= 1 && |pos| == nodes && |chain| == nodes - 1 && pos[0] == 0 &&
    (forall i :: 0 <= i < |chain| ==> 1 <= chain[i] < nodes && pos[chain[i]] == i + 1) &&
    (forall n :: 1 <= n < nodes ==> 1 <= pos[n] <= |chain| && chain[pos[n] - 1] == n)
  }

  /** Every link is the next node at its level. */
  ghost predicate Linked(chain: seq<nat>, pos: seq<nat>, hts: seq<nat>, next: seq<seq<int>>)
  {
    forall n, l :: 0 <= n < |next| && 0 <= l < |next[n]| && n < |pos| && pos[n] <= |chain| ==>
      next[n][l] == NodeAt(chain, NextIndex(chain, hts, pos[n], l))
  }

  lemma {:induction false} NextIndexSkip(chain: seq<nat>, hts: seq<nat>, i: nat, q: nat, l: nat)
    requires i <= q <= |chain|
    requires forall k :: i <= k < q ==> Height(hts, chain[k]) <= l
    ensures NextIndex(chain, hts, i, l) == NextIndex(chain, hts, q, l)
    decreases q - i
  {
    if i < q {
      NextIndexSkip(chain, hts, i + 1, q, l);
    }
  }

  lemma {:induction false} NextIndexSame(chain: seq<nat>, h1: seq<nat>, h2: seq<nat>, i: nat, l: nat)
    requires i <= |chain|
    requires forall k :: i <= k < |chain| ==> (Height(h1, chain[k]) > l) == (Height(h2, chain[k]) > l)
    ensures NextIndex(chain, h1, i, l) == NextIndex(chain, h2, i, l)
    decreases |chain| - i
  {
    if i < |chain| {
      NextIndexSame(chain, h1, h2, i + 1, l);
    }
  }

  /** chain with node x put at index p. */
  function InsertAt(chain: seq<nat>, p: nat, x: nat): (c: seq<nat>)
    requires p <= |chain|
    ensures |c| == |chain| + 1 && c[p] == x
    ensures forall k {:trigger c[k]} :: 0 <= k < p ==> c[k] == chain[k]
    ensures forall k :: p < k <= |chain| ==> c[k] == chain[k - 1]
  {
    chain[..p] + [x] + chain[p..]
  }

  /** After x is put at index p, a search that starts after p is shifted by one. */
  lemma {:induction false} NextIndexShift(chain: seq<nat>, hts: seq<nat>, p: nat, x: nat, hx: nat, i: nat, l: nat)
    requires p <= i <= |chain|
    requires x == |hts| && forall k :: 0 <= k < |chain| ==> chain[k] < |hts|
    ensures NextIndex(InsertAt(chain, p, x), hts + [hx], i + 1, l) == NextIndex(chain, hts, i, l) + 1
    decreases |chain| - i
  {
    var c := InsertAt(chain, p, x);
    if i < |chain| {
      assert c[i + 1] == chain[i];
      assert Height(hts + [hx], chain[i]) == Height(hts, chain[i]);
      NextIndexShift(chain, hts, p, x, hx, i + 1, l);
    }
  }

  /** ... and one that starts at or before p finds the same node, or x. */
  lemma {:induction false} NextIndexBefore(chain: seq<nat>, hts: seq<nat>, p: nat, x: nat, hx: nat, i: nat, l: nat)
    requires i <= p <= |chain|
    requires x == |hts| && forall k :: 0 <= k < |chain| ==> chain[k] < |hts|
    ensures var j := NextIndex(chain, hts, i, l);
      NextIndex(InsertAt(chain, p, x), hts + [hx], i, l) ==
        if j < p then j else if hx > l then p else j + 1
    decreases p - i
  {
    var c := InsertAt(chain, p, x);
    if i == p {
      assert c[p] == x && Height(hts + [hx], x) == hx;
      if hx <= l {
        NextIndexShift(chain, hts, p, x, hx, p, l);
      }
    } else {
      assert c[i] == chain[i];
      assert Height(hts + [hx], chain[i]) == Height(hts, chain[i]);
      NextIndexBefore(chain, hts, p, x, hx, i + 1, l);
    }
  }

  /** Raising x (at index p) from height l to l + 1 makes a level-l search
      from at or before p stop at p if it used to pass it. */
  lemma {:induction false} NextIndexRaise(c: seq<nat>, hts: seq<nat>, p: nat, x: nat, s: nat, l: nat)
    requires s <= p < |c| && c[p] == x && x < |hts| && hts[x] == l
    requires forall k :: 0 <= k < |c| && k != p ==> c[k] != x
    ensures var j := NextIndex(c, hts, s, l);
      NextIndex(c, hts[x := l + 1], s, l) == if j < p then j else p
    decreases p - s
  {
    var h2 := hts[x := l + 1];
    if s < p {
      assert c[s] != x;
      assert Height(h2, c[s]) == Height(hts, c[s]);
      NextIndexRaise(c, hts, p, x, s + 1, l);
    }
  }

  /** Raising x does not change a search at a level it does not reach or
      already reached, nor one that starts after it. */
  lemma NextIndexRaiseElsewhere(c: seq<nat>, hts: seq<nat>, p: nat, x: nat, s: nat, l: nat, i: nat)
    requires s <= |c| && p < |c| && c[p] == x && x < |hts| && hts[x] == i
    requires forall k :: 0 <= k < |c| && k != p ==> c[k] != x
    requires l != i || s > p
    ensures NextIndex(c, hts[x := i + 1], s, l) == NextIndex(c, hts, s, l)
  {
    var h2 := hts[x := i + 1];
    forall k | s <= k < |c|
      ensures (Height(hts, c[k]) > l) == (Height(h2, c[k]) > l)
    {
      if k != p {
        assert c[k] != x;
      }
    }
    NextIndexSame(c, hts, h2, s, l);
  }

  // ---------------------------------------------------------------------
  // Splicing a new node into the level structure
  // ---------------------------------------------------------------------

  /** Linked, except that x is only linked below level i. */
  ghost predicate LinkedBelow(c: seq<nat>, pos: seq<nat>, hts: seq<nat>, next: seq<seq<int>>, x: nat, i: nat)
  {
    forall n, l :: 0 <= n < |next| && 0 <= l < |next[n]| && (n != x || l < i) && n < |pos| && pos[n] <= |c| ==>
      next[n][l] == NodeAt(c, NextIndex(c, hts, pos[n], l))
  }

  /** The positions after a new node x == |pos| is put at index p. */
  function NewPos(pos: seq<nat>, p: nat): (r: seq<nat>)
    ensures |r| == |pos| + 1 && r[|pos|] == p + 1
    ensures forall n :: 0 <= n < |pos| ==> r[n] == if pos[n] > p then pos[n] + 1 else pos[n]
  {
    ShiftPast(pos, p) + [p + 1]
  }

  /** Each position after p moves up by one. */
  function ShiftPast(pos: seq<nat>, p: nat): (r: seq<nat>)
    ensures |r| == |pos|
    ensures forall n :: 0 <= n < |pos| ==> r[n] == if pos[n] > p then pos[n] + 1 else pos[n]
  {
    if pos == [] then []
    else
      var q := pos[|pos| - 1];
      ShiftPast(pos[..|pos| - 1], p) + [if q > p then q + 1 else q]
  }

  lemma InsertShape(chain: seq<nat>, pos: seq<nat>, p: nat)
    requires Shape(chain, pos, |pos|) && p <= |chain|
    ensures Shape(InsertAt(chain, p, |pos|), NewPos(pos, p), |pos| + 1)
  {
    InsertShapeChain(chain, pos, p);
    InsertShapePos(chain, pos, p);
  }

  /** After the insertion, each node of the order is where its new position says. */
  lemma InsertShapeChain(chain: seq<nat>, pos: seq<nat>, p: nat)
    requires Shape(chain, pos, |pos|) && p <= |chain|
    ensures var c, np := InsertAt(chain, p, |pos|), NewPos(pos, p);
      forall i :: 0 <= i < |c| ==> 1 <= c[i] < |pos| + 1 && np[c[i]] == i + 1
  {
    var c := InsertAt(chain, p, |pos|);
    var np := NewPos(pos, p);
    forall i | 0 <= i < |c|
      ensures 1 <= c[i] < |pos| + 1 && np[c[i]] == i + 1
    {
      if i > p {
        assert c[i] == chain[i - 1];
      }
    }
  }

  /** After the insertion, node n's new position holds it. */
  lemma InsertShapePosAt(chain: seq<nat>, pos: seq<nat>, p: nat, n: nat)
    requires Shape(chain, pos, |pos|) && p <= |chain| && 1 <= n < |pos| + 1
    ensures var c, np := InsertAt(chain, p, |pos|), NewPos(pos, p);
      1 <= np[n] <= |c| && c[np[n] - 1] == n
  {
    var c := InsertAt(chain, p, |pos|);
    var np := NewPos(pos, p);
    if n == |pos| {
      assert np[n] == p + 1 && c[p] == n;
    } else if pos[n] > p {
      assert np[n] == pos[n] + 1 && c[pos[n]] == chain[pos[n] - 1];
    } else {
      assert np[n] == pos[n] && c[pos[n] - 1] == chain[pos[n] - 1];
    }
  }

  /** After the insertion, each node's new position holds it. */
  lemma InsertShapePos(chain: seq<nat>, pos: seq<nat>, p: nat)
    requires Shape(chain, pos, |pos|) && p <= |chain|
    ensures var c, np := InsertAt(chain, p, |pos|), NewPos(pos, p);
      forall n :: 1 <= n < |pos| + 1 ==> 1 <= np[n] <= |c| && c[np[n] - 1] == n
  {
    forall n | 1 <= n < |pos| + 1
      ensures 1 <= NewPos(pos, p)[n] <= |InsertAt(chain, p, |pos|)| &&
              InsertAt(chain, p, |pos|)[NewPos(pos, p)[n] - 1] == n
    {
      InsertShapePosAt(chain, pos, p, n);
    }
  }

  /** Before any of its links is set, the new node (of height 0 as far as
      the search is concerned) leaves the target of every old link as it was. */
  lemma InsertSearchUnchanged(chain: seq<nat>, hts: seq<nat>, p: nat, s: nat, l: nat)
    requires p <= |chain| && s <= |chain|
    requires forall k :: 0 <= k < |chain| ==> chain[k] < |hts|
    ensures var s2 := if s > p then s + 1 else s;
      NodeAt(InsertAt(chain, p, |hts|), NextIndex(InsertAt(chain, p, |hts|), hts + [0], s2, l)) ==
      NodeAt(chain, NextIndex(chain, hts, s, l))
  {
    var c := InsertAt(chain, p, |hts|);
    var j := NextIndex(chain, hts, s, l);
    if s <= p {
      NextIndexBefore(chain, hts, p, |hts|, 0, s, l);
    } else {
      NextIndexShift(chain, hts, p, |hts|, 0, s, l);
    }
    if j >= p && j < |chain| {
      assert c[j + 1] == chain[j];
    }
  }

  lemma InsertLinkedStart(chain: seq<nat>, pos: seq<nat>, hts: seq<nat>, next: seq<seq<int>>,
                          p: nat, links: seq<int>)
    requires Shape(chain, pos, |pos|) && |next| == |pos| == |hts| && p <= |chain|
    requires Linked(chain, pos, hts, next)
    ensures var c := InsertAt(chain, p, |pos|);
      var np := NewPos(pos, p);
      Shape(c, np, |pos| + 1) &&
      LinkedBelow(c, np, hts + [0], next + [links], |pos|, 0)
  {
    var x := |pos|;
    var c := InsertAt(chain, p, x);
    var np := NewPos(pos, p);
    var nx := next + [links];
    InsertShape(chain, pos, p);
    forall n, l | 0 <= n < |nx| && 0 <= l < |nx[n]| && (n != x || l < 0)
      ensures nx[n][l] == NodeAt(c, NextIndex(c, hts + [0], np[n], l))
    {
      assert nx[n][l] == next[n][l];
      var s := pos[n];
      assert s <= |chain|;
      assert next[n][l] == NodeAt(chain, NextIndex(chain, hts, s, l));
      InsertSearchUnchanged(chain, hts, p, s, l);
      assert np[n] == if s > p then s + 1 else s;
    }
  }

  /** x sits only at index p of c. */
  ghost predicate OnlyAt(c: seq<nat>, p: nat, x: nat)
  {
    p < |c| && c[p] == x && forall k :: 0 <= k < |c| && k != p ==> c[k] != x
  }

  /** In the linking step at level i, a level-i node other than pv does not
      see x: its search ends before p or starts after it. */
  lemma LinkStepOther(c: seq<nat>, pos: seq<nat>, hts: seq<nat>, x: nat, p: nat, i: nat, pv: nat, n: nat)
    requires Shape(c, pos, |hts|) && OnlyAt(c, p, x) && x < |hts| && hts[x] == i
    requires pv < |hts| && n < |hts| && n != pv && n != x && Height(hts, n) > i && Height(hts, pv) > i
    requires pos[pv] <= p && forall k :: pos[pv] <= k < p ==> Height(hts, c[k]) <= i
    ensures NextIndex(c, hts[x := i + 1], pos[n], i) == NextIndex(c, hts, pos[n], i)
  {
    if pos[n] > p {
      NextIndexRaiseElsewhere(c, hts, p, x, pos[n], i, i);
    } else {
      NextIndexRaise(c, hts, p, x, pos[n], i);
    }
  }

  /** Where one step of the linking loop of Insert starts: x (at index p)
      has height i so far and is linked below level i, every other node has
      as many links as its height, and pv, another node reaching level i, is
      followed up to x by nodes below level i + 1. */
  ghost predicate StepReady(c: seq<nat>, pos: seq<nat>, hts: seq<nat>, next: seq<seq<int>>,
                            x: nat, p: nat, i: nat, pv: nat)
  {
    Shape(c, pos, |next|) && |hts| == |next| &&
    x < |next| && OnlyAt(c, p, x) && pos[x] == p + 1 &&
    hts[x] == i && i < |next[x]| &&
    (forall n :: 0 <= n < |next| && n != x ==> |next[n]| == hts[n]) &&
    pv < |next| && pv != x && i < |next[pv]| &&
    pos[pv] <= p && (forall k :: pos[pv] <= k < p ==> Height(hts, c[k]) <= i) &&
    LinkedBelow(c, pos, hts, next, x, i)
  }

  /** One step of the linking loop of Insert: x (at index p, linked below
      level i) is linked at level i after pv, the last node before p that
      reaches level i. */
  lemma LinkStep(c: seq<nat>, pos: seq<nat>, hts: seq<nat>, next: seq<seq<int>>,
                 x: nat, p: nat, i: nat, pv: nat, hts2: seq<nat>, n2: seq<seq<int>>)
    requires StepReady(c, pos, hts, next, x, p, i, pv)
    requires hts2 == hts[x := i + 1] && n2 == LinkUpdate(next, x, pv, i)
    ensures LinkedBelow(c, pos, hts2, n2, x, i + 1)
  {
    forall n, l | 0 <= n < |n2| && 0 <= l < |n2[n]| && (n != x || l < i + 1)
      ensures n2[n][l] == NodeAt(c, NextIndex(c, hts[x := i + 1], pos[n], l))
    {
      if l != i {
        LinkAtOtherLevel(c, hts, next, x, p, i, pv, n, l, pos[n]);
      } else if n == x {
        LinkAtNew(c, hts, next, x, p, i, pv, pos[pv]);
      } else if n == pv {
        LinkAtPrev(c, hts, next, x, p, i, pv, pos[pv]);
      } else {
        assert |next[n]| == hts[n];
        LinkStepOther(c, pos, hts, x, p, i, pv, n);
      }
    }
  }

  /** The nested update the linking step makes: x takes pv's level-i link,
      and pv's level-i link becomes x. */
  function LinkUpdate(next: seq<seq<int>>, x: nat, pv: nat, i: nat): seq<seq<int>>
    requires x < |next| && pv < |next| && i < |next[x]| && i < |next[pv]|
  {
    var n1 := next[x := next[x][i := next[pv][i]]];
    n1[pv := n1[pv][i := x]]
  }

  /** LinkStep below or above level i: the link is unchanged and raising x
      to level i + 1 changes no search at another level. */
  lemma LinkAtOtherLevel(c: seq<nat>, hts: seq<nat>, next: seq<seq<int>>,
                         x: nat, p: nat, i: nat, pv: nat, n: nat, l: nat, s: nat)
    requires x < |next| && pv < |next| && pv != x && i < |next[x]| && i < |next[pv]|
    requires n < |next| && l < |next[n]| && l != i && s <= |c|
    requires OnlyAt(c, p, x) && x < |hts| && hts[x] == i
    requires next[n][l] == NodeAt(c, NextIndex(c, hts, s, l))
    ensures LinkUpdate(next, x, pv, i)[n][l] == NodeAt(c, NextIndex(c, hts[x := i + 1], s, l))
  {
    NextIndexRaiseElsewhere(c, hts, p, x, s, l, i);
  }

  /** LinkStep for x at level i: x's new link is pv's old one, which is the
      next node after x at level i once x reaches it. */
  lemma LinkAtNew(c: seq<nat>, hts: seq<nat>, next: seq<seq<int>>,
                  x: nat, p: nat, i: nat, pv: nat, s: nat)
    requires x < |next| && pv < |next| && pv != x && i < |next[x]| && i < |next[pv]|
    requires OnlyAt(c, p, x) && x < |hts| && hts[x] == i
    requires s <= p && forall k :: s <= k < p ==> Height(hts, c[k]) <= i
    requires next[pv][i] == NodeAt(c, NextIndex(c, hts, s, i))
    ensures LinkUpdate(next, x, pv, i)[x][i] == NodeAt(c, NextIndex(c, hts[x := i + 1], p + 1, i))
  {
    LinkStepNew(c, hts, x, p, i, s);
  }

  /** LinkStep for pv at level i: its new link x is the next node after it
      at level i once x reaches it. */
  lemma LinkAtPrev(c: seq<nat>, hts: seq<nat>, next: seq<seq<int>>,
                   x: nat, p: nat, i: nat, pv: nat, s: nat)
    requires x < |next| && pv < |next| && pv != x && i < |next[x]| && i < |next[pv]|
    requires OnlyAt(c, p, x) && x < |hts| && hts[x] == i
    requires s <= p && forall k :: s <= k < p ==> Height(hts, c[k]) <= i
    ensures LinkUpdate(next, x, pv, i)[pv][i] == NodeAt(c, NextIndex(c, hts[x := i + 1], s, i))
  {
    NextIndexSkip(c, hts, s, p, i);
    NextIndexRaise(c, hts, p, x, s, i);
  }

  /** The new node's level-i link is the old level-i link of pv. */
  lemma LinkStepNew(c: seq<nat>, hts: seq<nat>, x: nat, p: nat, i: nat, s: nat)
    requires OnlyAt(c, p, x) && x < |hts| && hts[x] == i
    requires s <= p && forall k :: s <= k < p ==> Height(hts, c[k]) <= i
    ensures NextIndex(c, hts[x := i + 1], p + 1, i) == NextIndex(c, hts, s, i)
  {
    NextIndexSkip(c, hts, s, p + 1, i);
    NextIndexRaiseElsewhere(c, hts, p, x, p + 1, i, i);
  }

  /** After the splice, the gap below a predecessor of the new node is where it was. */
  lemma GapAfterInsert(chain: seq<nat>, pos: seq<nat>, hts: seq<nat>, p: nat, pv: nat, l: nat, height: nat)
    requires Shape(chain, pos, |pos|) && |hts| == |pos| && p <= |chain| && pv < |pos|
    requires pos[pv] <= p && forall k :: pos[pv] <= k < p ==> Height(hts, chain[k]) <= l
    ensures var c := InsertAt(chain, p, |pos|);
      NewPos(pos, p)[pv] == pos[pv] &&
      forall k :: pos[pv] <= k < p ==> Height(hts + [height], c[k]) <= l
  {
  }

  /** x has i levels, and below i every prev[l] is another node reaching level l. */
  ghost predicate Linkable(next: seq<seq<int>>, prev: seq<int>, x: nat, i: nat)
  {
    x < |next| && i <= |next[x]| && i <= |prev| &&
    forall l :: 0 <= l < i ==> 0 <= prev[l] < |next| && prev[l] != x && l < |next[prev[l]]|
  }

  /** The links once x has been linked after prev[l] at every level l < i,
      as the linking loop of Insert does it, level by level. */
  function LinkLevels(next: seq<seq<int>>, prev: seq<int>, x: nat, i: nat): (r: seq<seq<int>>)
    requires Linkable(next, prev, x, i)
    ensures |r| == |next| && forall n :: 0 <= n < |next| ==> |r[n]| == |next[n]|
    decreases i
  {
    if i == 0 then next
    else
      var n := LinkLevels(next, prev, x, i - 1);
      var pv := prev[i - 1];
      var n1 := n[x := n[x][i - 1 := n[pv][i - 1]]];
      n1[pv := n1[pv][i - 1 := x]]
  }

  /** Where the linking loop of Insert starts, for its first i levels: x (at
      index p) has no links set yet and every other link is right; below
      level i every prev[l] is another node reaching level l, followed up to
      x by nodes below level l + 1. */
  ghost predicate LevelsReady(c: seq<nat>, pos: seq<nat>, hts: seq<nat>, next: seq<seq<int>>,
                              x: nat, p: nat, prev: seq<int>, i: nat)
  {
    |hts| == |next| && Linkable(next, prev, x, i) && hts[x] == |next[x]| &&
    Shape(c, pos, |next|) && OnlyAt(c, p, x) && pos[x] == p + 1 &&
    (forall n :: 0 <= n < |next| && n != x ==> |next[n]| == hts[n]) &&
    (forall l :: 0 <= l < i ==> pos[prev[l]] <= p) &&
    (forall l, k :: 0 <= l < i && pos[prev[l]] <= k < p ==> Height(hts, c[k]) <= l) &&
    LinkedBelow(c, pos, hts[x := 0], next, x, 0)
  }

  lemma LevelsReadyDown(c: seq<nat>, pos: seq<nat>, hts: seq<nat>, next: seq<seq<int>>,
                        x: nat, p: nat, prev: seq<int>, i: nat)
    requires i > 0 && LevelsReady(c, pos, hts, next, x, p, prev, i)
    ensures LevelsReady(c, pos, hts, next, x, p, prev, i - 1)
  {
    assert Linkable(next, prev, x, i - 1);
  }

  /** Linking x level by level after the last node before it at each level
      keeps every link right and makes x's links right below level i. */
  lemma {:induction false} LinkLevelsLinked(c: seq<nat>, pos: seq<nat>, hts: seq<nat>, next: seq<seq<int>>,
                                            x: nat, p: nat, prev: seq<int>, i: nat)
    requires LevelsReady(c, pos, hts, next, x, p, prev, i)
    ensures LinkedBelow(c, pos, hts[x := i], LinkLevels(next, prev, x, i), x, i)
    decreases i
  {
    if i == 0 {
      LinkLevelsNone(c, pos, hts, next, x, p, prev);
    } else {
      LevelsReadyDown(c, pos, hts, next, x, p, prev, i);
      LinkLevelsLinked(c, pos, hts, next, x, p, prev, i - 1);
      LinkLevelsStep(c, pos, hts, next, x, p, prev, i);
    }
  }

  /** Linking no level changes nothing. */
  lemma LinkLevelsNone(c: seq<nat>, pos: seq<nat>, hts: seq<nat>, next: seq<seq<int>>,
                       x: nat, p: nat, prev: seq<int>)
    requires LevelsReady(c, pos, hts, next, x, p, prev, 0)
    ensures LinkedBelow(c, pos, hts[x := 0], LinkLevels(next, prev, x, 0), x, 0)
  {
  }

  /** Linking level i - 1 is one LinkUpdate on the links of the levels below. */
  lemma LinkLevelsUnfold(next: seq<seq<int>>, prev: seq<int>, x: nat, i: nat)
    requires i > 0 && Linkable(next, prev, x, i)
    ensures var n := LinkLevels(next, prev, x, i - 1);
      x < |n| && 0 <= prev[i - 1] < |n| && i - 1 < |n[x]| && i - 1 < |n[prev[i - 1]]| &&
      LinkLevels(next, prev, x, i) == LinkUpdate(n, x, prev[i - 1], i - 1)
  {
    assert Linkable(next, prev, x, i - 1);
  }

  /** What LinkStep needs at level i - 1, once levels below are linked: the
      new node has height i - 1 so far, the links of the other nodes keep
      their lengths, and no node between prev[i - 1] and the new node reaches
      level i - 1. */
  lemma LinkLevelsStepPre(c: seq<nat>, pos: seq<nat>, hts: seq<nat>, next: seq<seq<int>>,
                          x: nat, p: nat, prev: seq<int>, i: nat)
    requires i > 0 && LevelsReady(c, pos, hts, next, x, p, prev, i)
    requires LinkedBelow(c, pos, hts[x := i - 1], LinkLevels(next, prev, x, i - 1), x, i - 1)
    ensures StepReady(c, pos, hts[x := i - 1], LinkLevels(next, prev, x, i - 1), x, p, i - 1, prev[i - 1])
  {
    var h := hts[x := i - 1];
    forall k | pos[prev[i - 1]] <= k < p
      ensures Height(h, c[k]) <= i - 1
    {
      assert c[k] != x;
    }
    assert Linkable(next, prev, x, i - 1);
  }

  /** One level of LinkLevelsLinked: LinkStep on the links built so far. */
  lemma LinkLevelsStep(c: seq<nat>, pos: seq<nat>, hts: seq<nat>, next: seq<seq<int>>,
                       x: nat, p: nat, prev: seq<int>, i: nat)
    requires i > 0 && LevelsReady(c, pos, hts, next, x, p, prev, i)
    requires LinkedBelow(c, pos, hts[x := i - 1], LinkLevels(next, prev, x, i - 1), x, i - 1)
    ensures LinkedBelow(c, pos, hts[x := i], LinkLevels(next, prev, x, i), x, i)
  {
    var n := LinkLevels(next, prev, x, i - 1);
    var h := hts[x := i - 1];
    LinkLevelsUnfold(next, prev, x, i);
    LinkLevelsStepPre(c, pos, hts, next, x, p, prev, i);
    UpdateTwice(hts, x, i - 1, i);
    LinkStep(c, pos, h, n, x, p, i - 1, prev[i - 1], hts[x := i], LinkLevels(next, prev, x, i));
  }

  /** Setting index x twice keeps only the second value. */
  lemma UpdateTwice(s: seq<nat>, x: nat, a: nat, b: nat)
    requires x < |s|
    ensures s[x := a][x := b] == s[x := b]
  {
    assert s[x := a][x := b] == s[x := b];
  }

  /** A level no node other than the head reaches is linked after the head. */
  lemma HeadGap(chain: seq<nat>, pos: seq<nat>, hts: seq<nat>, p: nat, l: nat)
    requires Shape(chain, pos, |hts|) && p <= |chain| && hts[0] > l
    requires forall n :: 1 <= n < |hts| ==> hts[n] <= l
    ensures PrevGap(chain, pos, hts, p, 0, l)
  {
    assert forall k :: 0 <= k < p ==> 1 <= chain[k] < |hts|;
  }

  /** Every level at or above the height of every other node is linked after the head. */
  lemma HeadGaps(chain: seq<nat>, pos: seq<nat>, hts: seq<nat>, p: nat, h: nat)
    requires Shape(chain, pos, |hts|) && p <= |chain| && hts[0] == kMaxHeight
    requires forall n :: 1 <= n < |hts| ==> hts[n] <= h
    ensures forall l :: h <= l < kMaxHeight ==> PrevGap(chain, pos, hts, p, 0, l)
  {
    forall l | h <= l < kMaxHeight
      ensures PrevGap(chain, pos, hts, p, 0, l)
    {
      HeadGap(chain, pos, hts, p, l);
    }
  }

  /** The nodes a new node is linked after are old nodes reaching the level. */
  lemma PrevLinkable(hts: seq<nat>, next: seq<seq<int>>, p: nat, prev: seq<int>, height: nat,
                     chain: seq<nat>, pos: seq<nat>)
    requires |next| == |hts| && forall n :: 0 <= n < |next| ==> |next[n]| == hts[n]
    requires height <= |prev|
    requires forall l :: 0 <= l < height ==> PrevGap(chain, pos, hts, p, prev[l], l)
    ensures Linkable(next + [Nils(height)], prev, |next|, height)
  {
  }

  /** The new node occurs once in the level-0 order, at its index. */
  lemma InsertOnlyAt(chain: seq<nat>, pos: seq<nat>, p: nat)
    requires Shape(chain, pos, |pos|) && p <= |chain|
    ensures OnlyAt(InsertAt(chain, p, |pos|), p, |pos|)
  {
    var c := InsertAt(chain, p, |pos|);
    forall k | 0 <= k < |c| && k != p
      ensures c[k] != |pos|
    {
      if k < p { assert c[k] == chain[k]; } else { assert c[k] == chain[k - 1]; }
    }
  }

  /** After the insertion, every prev[l] is still followed up to the new node
      by nodes below level l + 1. */
  lemma InsertGaps(chain: seq<nat>, pos: seq<nat>, hts: seq<nat>, p: nat, prev: seq<int>, height: nat)
    requires Shape(chain, pos, |pos|) && |hts| == |pos| && p <= |chain| && height <= |prev|
    requires forall l :: 0 <= l < height ==> PrevGap(chain, pos, hts, p, prev[l], l)
    ensures var c, np := InsertAt(chain, p, |pos|), NewPos(pos, p);
      forall l :: 0 <= l < height ==>
        (0 <= prev[l] < |pos| && np[prev[l]] <= p &&
         forall k :: np[prev[l]] <= k < p ==> Height(hts + [height], c[k]) <= l)
  {
    forall l | 0 <= l < height
      ensures 0 <= prev[l] < |pos| && NewPos(pos, p)[prev[l]] <= p
      ensures forall k :: NewPos(pos, p)[prev[l]] <= k < p ==> Height(hts + [height], InsertAt(chain, p, |pos|)[k]) <= l
    {
      GapAfterInsert(chain, pos, hts, p, prev[l], l, height);
    }
  }

  /** Before the linking loop: with the new node put at index p with no links
      yet, the order is well formed, the node occurs once, and every old link
      is right. */
  lemma InsertLinksStart(chain: seq<nat>, pos: seq<nat>, hts: seq<nat>, next: seq<seq<int>>,
                         p: nat, height: nat)
    requires Shape(chain, pos, |pos|) && |next| == |pos| == |hts| && p <= |chain|
    requires Linked(chain, pos, hts, next)
    ensures var x, c, np := |pos|, InsertAt(chain, p, |pos|), NewPos(pos, p);
      Shape(c, np, |pos| + 1) && OnlyAt(c, p, x) && np[x] == p + 1 &&
      LinkedBelow(c, np, (hts + [height])[x := 0], next + [Nils(height)], x, 0)
  {
    var x := |pos|;
    InsertLinkedStart(chain, pos, hts, next, p, Nils(height));
    assert (hts + [height])[x := 0] == hts + [0];
    InsertOnlyAt(chain, pos, p);
  }

  /** Before the linking loop: each prev[l] is an old node reaching level l,
      and no node between it and the new node reaches level l. */
  lemma InsertLinksGaps(chain: seq<nat>, pos: seq<nat>, hts: seq<nat>, next: seq<seq<int>>,
                        p: nat, prev: seq<int>, height: nat)
    requires Shape(chain, pos, |pos|) && |next| == |pos| == |hts| && p <= |chain|
    requires forall n :: 0 <= n < |next| ==> |next[n]| == hts[n]
    requires height <= |prev|
    requires forall l :: 0 <= l < height ==> PrevGap(chain, pos, hts, p, prev[l], l)
    ensures var x, c, np := |pos|, InsertAt(chain, p, |pos|), NewPos(pos, p);
      var h, n0 := hts + [height], next + [Nils(height)];
      |h| == |n0| && Linkable(n0, prev, x, height) && h[x] == |n0[x]| &&
      (forall n :: 0 <= n < |n0| && n != x ==> |n0[n]| == h[n]) &&
      (forall l :: 0 <= l < height ==> np[prev[l]] <= p) &&
      (forall l, k :: 0 <= l < height && np[prev[l]] <= k < p ==> Height(h, c[k]) <= l)
  {
    InsertGaps(chain, pos, hts, p, prev, height);
    PrevLinkable(hts, next, p, prev, height, chain, pos);
  }

  /** Before the linking loop, everything the level-by-level linking of
      the new node needs holds. */
  lemma InsertLinksReady(chain: seq<nat>, pos: seq<nat>, hts: seq<nat>, next: seq<seq<int>>,
                         p: nat, prev: seq<int>, height: nat)
    requires Shape(chain, pos, |pos|) && |next| == |pos| == |hts| && p <= |chain|
    requires forall n :: 0 <= n < |next| ==> |next[n]| == hts[n]
    requires Linked(chain, pos, hts, next)
    requires height <= |prev|
    requires forall l :: 0 <= l < height ==> PrevGap(chain, pos, hts, p, prev[l], l)
    ensures LevelsReady(InsertAt(chain, p, |pos|), NewPos(pos, p), hts + [height],
                        next + [Nils(height)], |pos|, p, prev, height)
  {
    InsertLinksStart(chain, pos, hts, next, p, height);
    InsertLinksGaps(chain, pos, hts, next, p, prev, height);
  }

  /** Once x's links are right below its height, every link is right. */
  lemma LinkedFromBelow(c: seq<nat>, pos: seq<nat>, hts: seq<nat>, next: seq<seq<int>>, x: nat, i: nat)
    requires x < |next| && |next[x]| <= i && x < |hts| && hts[x] == i
    requires LinkedBelow(c, pos, hts[x := i], next, x, i)
    ensures Linked(c, pos, hts, next)
  {
    assert hts[x := i] == hts;
  }

  /** Putting a new node of height `height` at index p of the level-0 order
      and linking it after prev[l] at each of its levels, where prev[l] is the
      last node before p reaching level l, leaves every link right. */
  lemma InsertLinks(chain: seq<nat>, pos: seq<nat>, hts: seq<nat>, next: seq<seq<int>>,
                    p: nat, prev: seq<int>, height: nat)
    requires Shape(chain, pos, |pos|) && |next| == |pos| == |hts| && p <= |chain|
    requires forall n :: 0 <= n < |next| ==> |next[n]| == hts[n]
    requires Linked(chain, pos, hts, next)
    requires height <= |prev|
    requires forall l :: 0 <= l < height ==> PrevGap(chain, pos, hts, p, prev[l], l)
    ensures Linkable(next + [Nils(height)], prev, |pos|, height)
    ensures var x := |pos|;
      var c := InsertAt(chain, p, x);
      var np := NewPos(pos, p);
      var links := LinkLevels(next + [Nils(height)], prev, x, height);
      Shape(c, np, |pos| + 1) && Linked(c, np, hts + [height], links)
  {
    var x, c, np, h, n0 := |pos|, InsertAt(chain, p, |pos|), NewPos(pos, p), hts + [height], next + [Nils(height)];
    InsertLinksReady(chain, pos, hts, next, p, prev, height);
    LinkLevelsLinked(c, np, h, n0, x, p, prev, height);
    LinkedFromBelow(c, np, h, LinkLevels(n0, prev, x, height), x, height);
  }

  /** The node a level-l search from x's position finds is in the list, one
      place further than its index, and reaches level l. */
  lemma NextNodeFacts(chain: seq<nat>, pos: seq<nat>, hts: seq<nat>, x: nat, l: nat)
    requires Shape(chain, pos, |hts|) && x < |hts| && pos[x] <= |chain|
    ensures var j := NextIndex(chain, hts, pos[x], l);
      j < |chain| ==> chain[j] < |hts| && pos[chain[j]] == j + 1 && hts[chain[j]] > l &&
                      pos[x] < pos[chain[j]]
  {
  }

  /** pv reaches level l, sits at or before index lb, and no node from pv up
      to index lb reaches level l: at level l, a node put at index lb goes
      right after pv. */
  ghost predicate PrevGap(chain: seq<nat>, pos: seq<nat>, hts: seq<nat>, lb: nat, pv: int, l: nat)
  {
    0 <= pv < |hts| && pv < |pos| && hts[pv] > l && pos[pv] <= lb &&
    forall k :: pos[pv] <= k < lb && k < |chain| ==> Height(hts, chain[k]) <= l
  }

  /** The keys in level-0 order. */
  ghost function KeysOf<K>(chain: seq<nat>, keys: seq<K>): (ks: seq<K>)
    requires forall i :: 0 <= i < |chain| ==> chain[i] < |keys|
    ensures |ks| == |chain| && forall i {:trigger ks[i]} :: 0 <= i < |chain| ==> ks[i] == keys[chain[i]]
  {
    if chain == [] then [] else KeysOf(chain[..|chain| - 1], keys) + [keys[chain[|chain| - 1]]]
  }

  /** The elements of s with x put at index p. */
  lemma SpliceIndex<K>(s: seq<K>, p: nat, x: K)
    requires p <= |s|
    ensures var t := s[..p] + [x] + s[p..];
      |t| == |s| + 1 && t[p] == x &&
      (forall i {:trigger t[i]} :: 0 <= i < p ==> t[i] == s[i]) &&
      (forall i {:trigger t[i]} :: p < i <= |s| ==> t[i] == s[i - 1])
  {
    var t := s[..p] + [x] + s[p..];
    forall i | p < i <= |s|
      ensures t[i] == s[i - 1]
    {
      assert t[i] == s[p..][i - p - 1];
    }
  }

  lemma KeysOfInsert<K>(chain: seq<nat>, keys: seq<K>, p: nat, key: K)
    requires p <= |chain| && forall i :: 0 <= i < |chain| ==> chain[i] < |keys|
    ensures KeysOf(InsertAt(chain, p, |keys|), keys + [key]) ==
            KeysOf(chain, keys)[..p] + [key] + KeysOf(chain, keys)[p..]
  {
    var c := InsertAt(chain, p, |keys|);
    var ks := KeysOf(chain, keys);
    var a := KeysOf(c, keys + [key]);
    var b := ks[..p] + [key] + ks[p..];
    SpliceIndex(ks, p, key);
    forall i | 0 <= i < |a|
      ensures a[i] == b[i]
    {
      if i < p {
        assert a[i] == (keys + [key])[chain[i]] == ks[i];
      } else if i > p {
        assert a[i] == (keys + [key])[chain[i - 1]] == ks[i - 1];
      }
    }
  }

  /** ks with key put at its lower bound. */
  function Inserted<K>(ks: seq<K>, key: K, cmp: (K, K) -> int): seq<K>
  {
    var p := LowerBound(ks, key, cmp);
    ks[..p] + [key] + ks[p..]
  }

  /** In a sorted sequence the lower bound of the key at index j is j. */
  lemma LowerBoundOfMember<K(!new)>(ks: seq<K>, cmp: (K, K) -> int, j: nat)
    requires IsOrder(cmp) && SortedBy(ks, cmp) && j < |ks|
    ensures LowerBound(ks, ks[j], cmp) == j
  {
    var lb := LowerBound(ks, ks[j], cmp);
    if lb < j {
      SortedPairwise(ks, cmp, lb, j);
    }
  }

  /** Links of a fresh node: all NULL. */
  function Nils(n: nat): (r: seq<int>)
    ensures |r| == n && forall l :: 0 <= l < n ==> r[l] == NIL
  {
    if n == 0 then [] else Nils(n - 1) + [NIL]
  }

  /** The invariant of a skip list, on its node data: the level-0 order and
      the positions agree, every node has as many links as its height, the
      head is kMaxHeight high and every other node at most maxHeight, every
      link is the next node at its level, and the keys ascend along level 0. */
  ghost predicate Wf<K(!new)>(cmp: (K, K) -> int, keys: seq<K>, next: seq<seq<int>>, heights: seq<nat>,
                              chain: seq<nat>, pos: seq<nat>, maxHeight: nat)
  {
    IsOrder(cmp) &&
    Shape(chain, pos, |keys|) && |next| == |keys| && |heights| == |keys| &&
    (forall n :: 0 <= n < |keys| ==> |next[n]| == heights[n]) &&
    heights[0] == kMaxHeight && 1 <= maxHeight <= kMaxHeight &&
    (forall n :: 1 <= n < |keys| ==> 1 <= heights[n] <= maxHeight) &&
    Linked(chain, pos, heights, next) &&
    SortedBy(KeysOf(chain, keys), cmp)
  }

  /** After linking a new node of height `height`, every node still has as
      many links as its height, and heights stay within maxHeight. */
  lemma SpliceHeights(next: seq<seq<int>>, heights: seq<nat>, maxHeight: nat, height: nat, prev: seq<int>)
    requires |next| == |heights| && forall n :: 0 <= n < |next| ==> |next[n]| == heights[n]
    requires forall n :: 1 <= n < |next| ==> 1 <= heights[n] <= maxHeight
    requires 1 <= height <= maxHeight && Linkable(next + [Nils(height)], prev, |next|, height)
    ensures var links, hs := LinkLevels(next + [Nils(height)], prev, |next|, height), heights + [height];
      |links| == |hs| == |next| + 1 &&
      (forall n :: 0 <= n < |hs| ==> |links[n]| == hs[n]) &&
      (forall n :: 1 <= n < |hs| ==> 1 <= hs[n] <= maxHeight)
  {
    var nx := next + [Nils(height)];
    var hs := heights + [height];
    forall n | 0 <= n < |next| + 1
      ensures |nx[n]| == hs[n] && (n >= 1 ==> 1 <= hs[n] <= maxHeight)
    {
      if n < |next| {
        assert nx[n] == next[n] && hs[n] == heights[n];
      } else {
        assert nx[n] == Nils(height) && hs[n] == height;
      }
    }
  }

  /** Putting a key not in the list at its lower bound in the level-0 order
      puts it at its sorted place in the key order. */
  lemma SpliceKeys<K(!new)>(cmp: (K, K) -> int, keys: seq<K>, chain: seq<nat>, key: K)
    requires IsOrder(cmp) && forall i :: 0 <= i < |chain| ==> chain[i] < |keys|
    requires SortedBy(KeysOf(chain, keys), cmp)
    requires forall i :: 0 <= i < |chain| ==> cmp(key, KeysOf(chain, keys)[i]) != 0
    ensures var p := LowerBound(KeysOf(chain, keys), key, cmp);
      var ks := KeysOf(InsertAt(chain, p, |keys|), keys + [key]);
      ks == Inserted(KeysOf(chain, keys), key, cmp) && SortedBy(ks, cmp)
  {
    var ks := KeysOf(chain, keys);
    KeysOfInsert(chain, keys, LowerBound(ks, key, cmp), key);
    InsertKeepsSorted(ks, key, cmp);
  }

  /** Allocating a node for a key that is not in the list and linking it at
      each of its levels after the last node before its sorted place keeps
      the invariant, and puts the key at its sorted place in the key order. */
  lemma SpliceWf<K(!new)>(cmp: (K, K) -> int, keys: seq<K>, next: seq<seq<int>>, heights: seq<nat>,
                          chain: seq<nat>, pos: seq<nat>, maxHeight: nat,
                          key: K, height: nat, prev: seq<int>)
    requires Wf(cmp, keys, next, heights, chain, pos, maxHeight)
    requires forall i :: 0 <= i < |chain| ==> cmp(key, KeysOf(chain, keys)[i]) != 0
    requires 1 <= height <= maxHeight && height <= |prev|
    requires forall l :: 0 <= l < height ==>
      PrevGap(chain, pos, heights, LowerBound(KeysOf(chain, keys), key, cmp), prev[l], l)
    ensures Linkable(next + [Nils(height)], prev, |keys|, height)
    ensures var p := LowerBound(KeysOf(chain, keys), key, cmp);
      var c := InsertAt(chain, p, |keys|);
      Wf(cmp, keys + [key], LinkLevels(next + [Nils(height)], prev, |keys|, height),
         heights + [height], c, NewPos(pos, p), maxHeight) &&
      KeysOf(c, keys + [key]) == Inserted(KeysOf(chain, keys), key, cmp)
  {
    var p := LowerBound(KeysOf(chain, keys), key, cmp);
    InsertLinks(chain, pos, heights, next, p, prev, height);
    SpliceHeights(next, heights, maxHeight, height, prev);
    SpliceKeys(cmp, keys, chain, key);
    assert (heights + [height])[0] == kMaxHeight;
  }

  /** Raising the list's height keeps the invariant. */
  lemma RaiseWf<K(!new)>(cmp: (K, K) -> int, keys: seq<K>, next: seq<seq<int>>, heights: seq<nat>,
                         chain: seq<nat>, pos: seq<nat>, maxHeight: nat, h: nat)
    requires Wf(cmp, keys, next, heights, chain, pos, maxHeight) && maxHeight <= h <= kMaxHeight
    ensures Wf(cmp, keys, next, heights, chain, pos, h)
  {
  }

  /** One step of a search at node x and level l: x's level-l link is the
      next node reaching level l, and when that node's key is below key the
      search may move to it without passing the key's lower bound. */
  lemma SearchNext<K(!new)>(cmp: (K, K) -> int, keys: seq<K>, next: seq<seq<int>>, heights: seq<nat>,
                            chain: seq<nat>, pos: seq<nat>, maxHeight: nat, key: K, x: nat, l: nat)
    requires Wf(cmp, keys, next, heights, chain, pos, maxHeight)
    requires x < |keys| && heights[x] > l && pos[x] <= LowerBound(KeysOf(chain, keys), key, cmp)
    ensures x < |next| && l < |next[x]|
    ensures var j := NextIndex(chain, heights, pos[x], l);
      next[x][l] == NodeAt(chain, j) &&
      (j == |chain| <==> next[x][l] == NIL) &&
      (j < |chain| ==> 1 <= chain[j] < |keys| && heights[chain[j]] > l && pos[x] < pos[chain[j]] &&
                       (cmp(keys[chain[j]], key) < 0 ==>
                          pos[chain[j]] <= LowerBound(KeysOf(chain, keys), key, cmp)))
  {
    var ks := KeysOf(chain, keys);
    var j := NextIndex(chain, heights, pos[x], l);
    NextNodeFacts(chain, pos, heights, x, l);
    if j < |chain| && cmp(keys[chain[j]], key) < 0 {
      assert ks[j] == keys[chain[j]];
      LowerBoundPast(ks, key, cmp, j);
    }
  }

  /** A search at node x and level l that stops because the next node at
      level l is missing or not below key: x is the node to link after at
      level l, and at level 0 x is right before the key's lower bound. */
  lemma SearchStop<K(!new)>(cmp: (K, K) -> int, keys: seq<K>, next: seq<seq<int>>, heights: seq<nat>,
                            chain: seq<nat>, pos: seq<nat>, maxHeight: nat, key: K, x: nat, l: nat)
    requires Wf(cmp, keys, next, heights, chain, pos, maxHeight)
    requires x < |keys| && heights[x] > l && pos[x] <= LowerBound(KeysOf(chain, keys), key, cmp)
    requires var j := NextIndex(chain, heights, pos[x], l);
      j == |chain| || cmp(keys[chain[j]], key) >= 0
    ensures var lb := LowerBound(KeysOf(chain, keys), key, cmp);
      PrevGap(chain, pos, heights, lb, x, l) &&
      (l == 0 ==> NextIndex(chain, heights, pos[x], 0) == lb &&
                  x == if lb == 0 then 0 else chain[lb - 1])
  {
    var ks := KeysOf(chain, keys);
    var lb := LowerBound(ks, key, cmp);
    var j := NextIndex(chain, heights, pos[x], l);
    if j < |chain| {
      assert ks[j] == keys[chain[j]];
    }
    assert lb <= j;
    if l == 0 && pos[x] < |chain| {
      assert 1 <= chain[pos[x]] < |keys|;
      assert Height(heights, chain[pos[x]]) > 0;
    }
  }

  /** Bytes a node of the given height takes in the arena: the key (a
      pointer, as in the memtable) and one link per level. */
  function NodeBytes(height: nat): nat
  {
    8 + 8 * height
  }

  class SkipList<K(!new)> {
    /** compare_. */
    const compare: (K, K) -> int
    /** arena_: where the nodes are allocated. */
    const arena: Arena
    /** Node n's key. */
    var keys: seq<K>
    /** Node n's forward links, one per level (NIL is NULL). */
    var next: seq<seq<int>>
    /** Node n's address in the arena. */
    var addrs: seq<nat>
    /** max_height_: the height of the entire list. */
    var maxHeight: nat
    /** Node n's height (the length of its link array). */
    ghost var heights: seq<nat>
    /** The nodes other than the head, in level-0 order. */
    ghost var chain: seq<nat>
    /** pos[n] - 1 is n's index in chain; the head has 0. */
    ghost var pos: seq<nat>

    ghost predicate Valid()
      reads this
    {
      |addrs| == |keys| && Wf(compare, keys, next, heights, chain, pos, maxHeight)
    }

    /** The keys of the list in ascending order. */
    ghost function Keys(): seq<K>
      reads this
      requires Valid()
    {
      KeysOf(chain, keys)
    }

    /** The level-0 order holds every node but the head, one per key. */
    lemma ChainNodes()
      requires Valid()
      ensures |Keys()| == |chain| && forall i :: 0 <= i < |chain| ==> 1 <= chain[i] < |keys|
    {
    }

    /** pv may precede a node with key target at level l: it reaches level l,
        is the head or below target, and nothing between it and the first
        key not below target reaches level l. */
    ghost predicate PrevAt(pv: int, l: nat, target: K)
      reads this
      requires Valid()
    {
      PrevGap(chain, pos, heights, LowerBound(Keys(), target, compare), pv, l)
    }

    /** SkipList(cmp, arena): an empty list whose head has every link NULL. */
    constructor (cmp: (K, K) -> int, arena: Arena, headKey: K, addr: nat)
      requires IsOrder(cmp)
      requires arena.Valid() && arena.HostFresh(addr, kBlockSize)
      modifies arena
      ensures Valid() && arena.Valid()
      ensures compare == cmp && this.arena == arena
      ensures Keys() == [] && maxHeight == 1
    {
      var mem := arena.AllocateAligned(NodeBytes(kMaxHeight), addr);
      compare := cmp;
      this.arena := arena;
      keys := [headKey];
      next := [Nils(kMaxHeight)];
      addrs := [mem];
      maxHeight := 1;
      heights := [kMaxHeight];
      chain := [];
      pos := [0];
    }

    /** NewNode: allocates an aligned node of the given height in the arena. */
    method NewNode(key: K, height: nat, addr: nat) returns (x: nat)
      requires 1 <= height <= kMaxHeight
      requires arena.Valid() && arena.HostFresh(addr, kBlockSize)
      modifies this, arena
      ensures x == old(|keys|) && keys == old(keys) + [key]
      ensures next == old(next) + [Nils(height)] && heights == old(heights) + [height]
      ensures |addrs| == old(|addrs|) + 1 && addrs[..old(|addrs|)] == old(addrs)
      ensures addrs[|addrs| - 1] % kAlign == 0
      ensures maxHeight == old(maxHeight) && chain == old(chain) && pos == old(pos)
      ensures arena.Valid() && arena.memoryUsage >= old(arena.memoryUsage)
    {
      var mem := arena.AllocateAligned(NodeBytes(height), addr);
      x := |keys|;
      keys := keys + [key];
      next := next + [Nils(height)];
      addrs := addrs + [mem];
      heights := heights + [height];
    }

    /** RandomHeight: 1, raised by one with probability 1 in kBranching while
        below kMaxHeight. The random draw is arbitrary. */
    method RandomHeight() returns (height: nat)
      ensures 1 <= height <= kMaxHeight
    {
      height := 1;
      while height < kMaxHeight
        invariant 1 <= height <= kMaxHeight
        decreases kMaxHeight - height
      {
        var draw: nat :| true;
        if draw % kBranching != 0 {
          break;
        }
        height := height + 1;
      }
    }

    /** KeyIsAfterNode: n's key is less than key (false for NULL). In a
        well-formed list that is: n lies before key's lower bound. */
    function KeyIsAfterNode(key: K, n: int): (after: bool)
      reads this
      requires n == NIL || 0 <= n < |keys|
      ensures after ==> n != NIL
      ensures Valid() && 1 <= n < |keys| ==>
                (after <==> pos[n] - 1 < LowerBound(Keys(), key, compare))
    {
      AfterNodeBound(key, n);
      n != NIL && compare(keys[n], key) < 0
    }

    /** A node's key is below key exactly when its index in the ascending
        keys precedes key's lower bound. */
    lemma AfterNodeBound(key: K, n: int)
      ensures Valid() && 1 <= n < |keys| ==>
                (compare(keys[n], key) < 0 <==> pos[n] - 1 < LowerBound(Keys(), key, compare))
    {
      if Valid() && 1 <= n < |keys| {
        ChainNodes();
        var i := pos[n] - 1;
        assert 0 <= i < |Keys()| && Keys()[i] == keys[n];
        if compare(keys[n], key) < 0 {
          LowerBoundPast(Keys(), key, compare, i);
        } else if i >= LowerBound(Keys(), key, compare) {
          LowerBoundRest(Keys(), key, compare, i);
        }
      }
    }

    /** FindGreaterOrEqual: the first node whose key is not below key (NIL if
        none), and in prev[level], for every level in use, the node after
        which a node with this key is to be linked at that level. */
    method FindGreaterOrEqual(key: K) returns (r: int, prev: seq<int>)
      requires Valid()
      ensures r == NodeAt(chain, LowerBound(Keys(), key, compare))
      ensures |prev| == kMaxHeight
      ensures forall l :: 0 <= l < maxHeight ==> PrevAt(prev[l], l, key)
    {
      ghost var ks := Keys();
      ghost var lb := LowerBound(ks, key, compare);
      prev := Nils(kMaxHeight);
      var x := 0;
      var level := maxHeight - 1;
      while true
        invariant 0 <= level < maxHeight
        invariant 0 <= x < |keys| && x < |pos| && heights[x] > level && pos[x] <= lb
        invariant |prev| == kMaxHeight
        invariant forall l :: level < l < maxHeight ==> PrevGap(chain, pos, heights, lb, prev[l], l)
        decreases level, |chain| - pos[x]
      {
        SearchNext(compare, keys, next, heights, chain, pos, maxHeight, key, x, level);
        var nxt := next[x][level];
        if KeyIsAfterNode(key, nxt) {
          // Keep searching in this list
          x := nxt;
        } else {
          SearchStop(compare, keys, next, heights, chain, pos, maxHeight, key, x, level);
          prev := prev[level := x];
          if level == 0 {
            return nxt, prev;
          } else {
            // Switch to next list
            level := level - 1;
          }
        }
      }
    }

    /** FindLessThan: the last node whose key is below key, or the head. */
    method FindLessThan(key: K) returns (r: int)
      requires Valid()
      ensures var lb := LowerBound(Keys(), key, compare);
        r == if lb == 0 then 0 else chain[lb - 1]
    {
      ghost var lb := LowerBound(Keys(), key, compare);
      var x := 0;
      var level := maxHeight - 1;
      while true
        invariant 0 <= level < maxHeight
        invariant 0 <= x < |keys| && heights[x] > level && pos[x] <= lb
        decreases level, |chain| - pos[x]
      {
        SearchNext(compare, keys, next, heights, chain, pos, maxHeight, key, x, level);
        var nxt := next[x][level];
        if nxt == NIL || compare(keys[nxt], key) >= 0 {
          SearchStop(compare, keys, next, heights, chain, pos, maxHeight, key, x, level);
          if level == 0 {
            return x;
          } else {
            // Switch to next list
            level := level - 1;
          }
        } else {
          x := nxt;
        }
      }
    }

    /** FindLast: the last node, or the head if the list is empty. */
    method FindLast() returns (r: int)
      requires Valid()
      ensures r == if |chain| == 0 then 0 else chain[|chain| - 1]
    {
      var x := 0;
      var level := maxHeight - 1;
      while true
        invariant 0 <= level < maxHeight
        invariant 0 <= x < |keys| && heights[x] > level
        decreases level, |chain| - pos[x]
      {
        ghost var j := NextIndex(chain, heights, pos[x], level);
        NextNodeFacts(chain, pos, heights, x, level);
        var nxt := next[x][level];
        assert nxt == NodeAt(chain, j);
        if nxt == NIL {
          if level == 0 {
            return x;
          } else {
            // Switch to next list
            level := level - 1;
          }
        } else {
          x := nxt;
        }
      }
    }

    /** Contains: some key in the list compares equal to key. */
    method Contains(key: K) returns (found: bool)
      requires Valid()
      ensures found <==> exists i :: 0 <= i < |Keys()| && compare(key, Keys()[i]) == 0
    {
      var x, _ := FindGreaterOrEqual(key);
      LowerBoundFindsEqual(Keys(), key, compare);
      found := x != NIL && compare(key, keys[x]) == 0;
    }

    /** The linking loop of Insert: at each level below height, x takes over
        the link of prev[level] and prev[level] is linked to x. */
    method LinkNode(x: nat, prev: seq<int>, height: nat)
      requires Linkable(next, prev, x, height)
      modifies this`next
      ensures next == LinkLevels(old(next), prev, x, height)
    {
      for i := 0 to height
        invariant next == LinkLevels(old(next), prev, x, i)
      {
        var pv := prev[i];
        next := next[x := next[x][i := next[pv][i]]];   // x->NoBarrier_SetNext(i, prev[i]->NoBarrier_Next(i))
        next := next[pv := next[pv][i := x]];           // prev[i]->SetNext(i, x)
      }
    }

    /** Insert: links a new node with key at its sorted place at every level
        below its random height, after the nodes FindGreaterOrEqual reported;
        the list's height grows to the new node's height if that is larger.
        No key comparing equal to key may be in the list. */
    method Insert(key: K, addr: nat)
      requires Valid() && arena.Valid() && arena.HostFresh(addr, kBlockSize)
      requires forall i :: 0 <= i < |Keys()| ==> compare(key, Keys()[i]) != 0
      modifies this, arena
      ensures Valid() && arena.Valid()
      ensures Keys() == Inserted(old(Keys()), key, compare)
      ensures |keys| == old(|keys|) + 1 && keys[..old(|keys|)] == old(keys)
      ensures 1 <= heights[|keys| - 1] <= kMaxHeight
      ensures maxHeight == if heights[|keys| - 1] > old(maxHeight) then heights[|keys| - 1] else old(maxHeight)
      ensures arena.memoryUsage >= old(arena.memoryUsage)
    {
      var found, prev := FindGreaterOrEqual(key);
      ghost var ks := Keys();
      ghost var p := LowerBound(ks, key, compare);
      ghost var chain0, pos0, heights0 := chain, pos, heights;
      assert forall l :: 0 <= l < maxHeight ==> PrevGap(chain0, pos0, heights0, p, prev[l], l);
      var height := RandomHeight();
      if height > maxHeight {
        prev := RaiseHeight(height, prev, p);
      }
      Splice(key, height, prev, addr);
    }

    /** The growing step of Insert: every level from the list's height up to
        height gets the head as predecessor, and the list's height becomes
        height. */
    method RaiseHeight(height: nat, prev: seq<int>, ghost p: nat) returns (prev': seq<int>)
      requires Valid() && maxHeight < height <= kMaxHeight && |prev| == kMaxHeight && p <= |chain|
      requires forall l :: 0 <= l < maxHeight ==> PrevGap(chain, pos, heights, p, prev[l], l)
      modifies this`maxHeight
      ensures Valid() && maxHeight == height && |prev'| == kMaxHeight
      ensures forall l :: 0 <= l < height ==> PrevGap(chain, pos, heights, p, prev'[l], l)
    {
      prev' := prev;
      for i := maxHeight to height
        modifies {}
        invariant |prev'| == kMaxHeight
        invariant forall l :: 0 <= l < maxHeight ==> prev'[l] == prev[l]
        invariant forall l :: maxHeight <= l < i ==> prev'[l] == 0
      {
        prev' := prev'[i := 0];
      }
      HeadGaps(chain, pos, heights, p, maxHeight);
      RaiseWf(compare, keys, next, heights, chain, pos, maxHeight, height);
      maxHeight := height;
    }

    /** The second half of Insert: allocates the node and links it after
        prev[l] at each of its levels l. */
    method Splice(key: K, height: nat, prev: seq<int>, addr: nat)
      requires Valid() && arena.Valid() && arena.HostFresh(addr, kBlockSize)
      requires forall i :: 0 <= i < |Keys()| ==> compare(key, Keys()[i]) != 0
      requires 1 <= height <= maxHeight && height <= |prev|
      requires forall l :: 0 <= l < height ==>
        PrevGap(chain, pos, heights, LowerBound(Keys(), key, compare), prev[l], l)
      modifies this, arena
      ensures Valid() && arena.Valid()
      ensures Keys() == Inserted(old(Keys()), key, compare)
      ensures keys == old(keys) + [key] && heights == old(heights) + [height]
      ensures maxHeight == old(maxHeight)
      ensures arena.memoryUsage >= old(arena.memoryUsage)
    {
      ghost var p := LowerBound(Keys(), key, compare);
      SpliceWf(compare, keys, next, heights, chain, pos, maxHeight, key, height, prev);
      ghost var c, np := InsertAt(chain, p, |keys|), NewPos(pos, p);
      var x := NewNode(key, height, addr);
      chain, pos := c, np;
      LinkNode(x, prev, height);
    }
  }

  /** SkipList::Iterator: a position in a list, NIL when not valid. */
  class Iterator<K(!new)> {
    /** list_. */
    const list: SkipList<K>
    /** node_. */
    var node: int

    /** The node is NIL or a non-head node of the list. */
    ghost predicate Inv()
      reads this, list
    {
      node == NIL || 1 <= node < |list.keys|
    }

    /** Iterator(list): not valid. */
    constructor (list: SkipList<K>)
      requires list.Valid()
      ensures Inv() && this.list == list && node == NIL
    {
      this.list := list;
      node := NIL;
    }

    /** Valid: positioned at one of the list's entries. */
    function Valid(): (v: bool)
      reads this, list
      ensures list.Valid() && Inv() ==> (v <==> node in list.chain)
    {
      OnEntry();
      node != NIL
    }

    /** The nodes an iterator may stand on are exactly the list's entries. */
    lemma OnEntry()
      ensures list.Valid() && Inv() ==> (node != NIL <==> node in list.chain)
    {
      if list.Valid() && Inv() {
        list.ChainNodes();
        if node != NIL {
          assert list.chain[list.pos[node] - 1] == node;
        }
      }
    }

    /** The index of the iterator's node in the list's ascending keys. */
    ghost function Index(): int
      reads this, list
      requires list.Valid() && Inv() && Valid()
    {
      list.pos[node] - 1
    }

    /** key: the key at the current position. */
    function Key(): (k: K)
      reads this, list
      requires list.Valid() && Inv() && Valid()
      ensures k == list.Keys()[Index()]
    {
      list.keys[node]
    }

    /** Next: the following node, NIL after the last. */
    method Next()
      requires list.Valid() && Inv() && Valid()
      modifies this
      ensures Inv()
      ensures node == NodeAt(list.chain, old(Index()) + 1)
    {
      NextNodeFacts(list.chain, list.pos, list.heights, node, 0);
      node := list.next[node][0];
    }

    /** Prev: the preceding node, NIL before the first (searched for, since
        nodes have no back links). */
    method Prev()
      requires list.Valid() && Inv() && Valid()
      modifies this
      ensures Inv()
      ensures node == if old(Index()) == 0 then NIL else list.chain[old(Index()) - 1]
    {
      LowerBoundOfMember(list.Keys(), list.compare, Index());
      node := list.FindLessThan(list.keys[node]);
      if node == 0 {
        node := NIL;
      }
    }

    /** Seek: the first node whose key is not below target. */
    method Seek(target: K)
      requires list.Valid() && Inv()
      modifies this
      ensures Inv()
      ensures node == NodeAt(list.chain, LowerBound(list.Keys(), target, list.compare))
      ensures Valid() <==> LowerBound(list.Keys(), target, list.compare) < |list.Keys()|
      ensures Valid() ==> Index() == LowerBound(list.Keys(), target, list.compare)
    {
      var n, _ := list.FindGreaterOrEqual(target);
      list.ChainNodes();
      node := n;
    }

    /** SeekToFirst: the first node; valid iff the list is not empty. */
    method SeekToFirst()
      requires list.Valid() && Inv()
      modifies this
      ensures Inv()
      ensures node == NodeAt(list.chain, 0)
      ensures Valid() <==> |list.Keys()| > 0
    {
      NextNodeFacts(list.chain, list.pos, list.heights, 0, 0);
      node := list.next[0][0];
    }

    /** SeekToLast: the last node; valid iff the list is not empty. */
    method SeekToLast()
      requires list.Valid() && Inv()
      modifies this
      ensures Inv()
      ensures node == if |list.chain| == 0 then NIL else list.chain[|list.chain| - 1]
      ensures Valid() <==> |list.Keys()| > 0
    {
      list.ChainNodes();
      var last := list.FindLast();
      node := if last == 0 then NIL else last;
    }
  }
}
