/** Byte views (include/leveldb/slice.h) and the fixed-width integer types
    shared by the rest of the model. A Slice is modelled by the bytes it
    refers to; the class below keeps the two operations that mutate a view. */
module Slices {

  type Byte = x: int | 0 <= x < 0x100
  type U32 = x: int | 0 <= x < 0x1_0000_0000
  type U64 = x: int | 0 <= x < 0x1_0000_0000_0000_0000
  type Bytes = seq<Byte>

  /** memcmp over the first n bytes, normalised to -1, 0 or +1. */
  function MemCmp(a: Bytes, b: Bytes, n: nat): (r: int)
    requires n <= |a| && n <= |b|
    ensures -1 <= r <= 1
    ensures r == 0 <==> a[..n] == b[..n]
  {
    if n == 0 then 0
    else if a[0] < b[0] then -1
    else if a[0] > b[0] then 1
    else
      var r := MemCmp(a[1..], b[1..], n - 1);
      assert a[..n] == [a[0]] + a[1..][..n - 1];
      assert b[..n] == [b[0]] + b[1..][..n - 1];
      r
  }

  /** Slice::compare: memcmp over the shorter length, then the shorter slice first. */
  function Compare(a: Bytes, b: Bytes): (r: int)
    ensures -1 <= r <= 1
    ensures r == 0 <==> a == b
    ensures |a| < |b| && a == b[..|a|] ==> r == -1
  {
    var minLen := if |a| < |b| then |a| else |b|;
    var r := MemCmp(a, b, minLen);
    if r != 0 then r
    else if |a| < |b| then -1
    else if |a| > |b| then 1
    else 0
  }

  /** Reference definition: lexicographic order on unsigned bytes, element by element. */
  function Lex(a: Bytes, b: Bytes): int
  {
    if a == [] then (if b == [] then 0 else -1)
    else if b == [] then 1
    else if a[0] < b[0] then -1
    else if a[0] > b[0] then 1
    else Lex(a[1..], b[1..])
  }

  /** The first position where a and b differ, holding a smaller byte in a. */
  ghost predicate LessAt(a: Bytes, b: Bytes, k: nat)
  {
    k < |a| && k < |b| && a[..k] == b[..k] && a[k] < b[k]
  }

  /** a is lexicographically smaller: a proper prefix, or smaller at the first difference. */
  ghost predicate LexLess(a: Bytes, b: Bytes)
  {
    (|a| < |b| && a == b[..|a|]) || exists k: nat :: LessAt(a, b, k)
  }

  lemma {:induction false} MemCmpIsLex(a: Bytes, b: Bytes, n: nat)
    requires n <= |a| && n <= |b|
    ensures MemCmp(a, b, n) != 0 ==> MemCmp(a, b, n) == Lex(a, b)
  {
    if n > 0 && a[0] == b[0] {
      MemCmpIsLex(a[1..], b[1..], n - 1);
    }
  }

  lemma {:induction false} LexOfEqualPrefix(a: Bytes, b: Bytes, n: nat)
    requires n <= |a| && n <= |b| && a[..n] == b[..n]
    ensures Lex(a, b) == Lex(a[n..], b[n..])
  {
    if n > 0 {
      assert a[0] == a[..n][0] && b[0] == b[..n][0];
      assert a[1..][..n - 1] == a[..n][1..];
      assert b[1..][..n - 1] == b[..n][1..];
      LexOfEqualPrefix(a[1..], b[1..], n - 1);
      assert a[1..][n - 1..] == a[n..];
      assert b[1..][n - 1..] == b[n..];
    }
  }

  /** The source's compare agrees with the element-by-element definition. */
  lemma CompareIsLex(a: Bytes, b: Bytes)
    ensures Compare(a, b) == Lex(a, b)
  {
    var minLen := if |a| < |b| then |a| else |b|;
    MemCmpIsLex(a, b, minLen);
    if MemCmp(a, b, minLen) == 0 {
      LexOfEqualPrefix(a, b, minLen);
      assert a[minLen..] == [] || b[minLen..] == [];
    }
  }

  lemma {:induction false} LexZeroIffEqual(a: Bytes, b: Bytes)
    ensures Lex(a, b) == 0 <==> a == b
  {
    if a != [] && b != [] && a[0] == b[0] {
      LexZeroIffEqual(a[1..], b[1..]);
      if a[1..] == b[1..] {
        assert a == [a[0]] + a[1..] && b == [b[0]] + b[1..];
      }
    }
  }

  lemma {:induction false} LexAntisymmetric(a: Bytes, b: Bytes)
    ensures Lex(a, b) == -Lex(b, a)
  {
    if a != [] && b != [] && a[0] == b[0] {
      LexAntisymmetric(a[1..], b[1..]);
    }
  }

  lemma {:induction false} LexTransitive(a: Bytes, b: Bytes, c: Bytes)
    requires Lex(a, b) < 0 && Lex(b, c) < 0
    ensures Lex(a, c) < 0
  {
    if a != [] && b != [] && c != [] && a[0] == b[0] && b[0] == c[0] {
      LexTransitive(a[1..], b[1..], c[1..]);
    }
  }

  lemma {:induction false} LexNegativeGivesLexLess(a: Bytes, b: Bytes)
    requires Lex(a, b) < 0
    ensures LexLess(a, b)
  {
    if a == [] {
      assert a == b[..0];
    } else if a[0] < b[0] {
      assert LessAt(a, b, 0);
    } else {
      LexNegativeGivesLexLess(a[1..], b[1..]);
      assert a == [a[0]] + a[1..];
      if |a[1..]| < |b[1..]| && a[1..] == b[1..][..|a[1..]|] {
        assert b[..|a|] == [b[0]] + b[1..][..|a| - 1];
      } else {
        var k: nat :| LessAt(a[1..], b[1..], k);
        assert a[..k + 1] == [a[0]] + a[1..][..k];
        assert b[..k + 1] == [b[0]] + b[1..][..k];
        assert LessAt(a, b, k + 1);
      }
    }
  }

  lemma {:induction false} ProperPrefixGivesLexNegative(a: Bytes, b: Bytes)
    requires |a| < |b| && a == b[..|a|]
    ensures Lex(a, b) < 0
  {
    if a != [] {
      assert a[0] == b[0];
      assert a[1..] == b[1..][..|a| - 1];
      ProperPrefixGivesLexNegative(a[1..], b[1..]);
    }
  }

  lemma {:induction false} LessAtGivesLexNegative(a: Bytes, b: Bytes, k: nat)
    requires LessAt(a, b, k)
    ensures Lex(a, b) < 0
  {
    if k > 0 {
      assert a[0] == a[..k][0] && b[0] == b[..k][0];
      assert a[1..][..k - 1] == a[..k][1..];
      assert b[1..][..k - 1] == b[..k][1..];
      LessAtGivesLexNegative(a[1..], b[1..], k - 1);
    }
  }

  lemma LexNegativeIsLexLess(a: Bytes, b: Bytes)
    ensures Lex(a, b) < 0 <==> LexLess(a, b)
  {
    if Lex(a, b) < 0 {
      LexNegativeGivesLexLess(a, b);
    } else if |a| < |b| && a == b[..|a|] {
      ProperPrefixGivesLexNegative(a, b);
    } else if k: nat :| LessAt(a, b, k) {
      LessAtGivesLexNegative(a, b, k);
    }
  }

  /** compare is the lexicographic order on unsigned bytes: negative exactly when
      this slice is a proper prefix of b or is smaller at the first difference,
      zero exactly when the bytes are equal, positive in the mirrored case. */
  lemma CompareIsLexicographic(a: Bytes, b: Bytes)
    ensures Compare(a, b) < 0 <==> LexLess(a, b)
    ensures Compare(a, b) == 0 <==> a == b
    ensures Compare(a, b) > 0 <==> LexLess(b, a)
  {
    CompareIsLex(a, b);
    CompareIsLex(b, a);
    LexNegativeIsLexLess(a, b);
    LexNegativeIsLexLess(b, a);
    LexZeroIffEqual(a, b);
    LexAntisymmetric(a, b);
  }

  /** A proper prefix compares less. */
  lemma ProperPrefixIsLess(a: Bytes, b: Bytes)
    requires |a| < |b| && a == b[..|a|]
    ensures Compare(a, b) < 0
  {
    CompareIsLexicographic(a, b);
  }

  /** compare is a total order: antisymmetric and transitive. */
  lemma CompareIsTotalOrder(a: Bytes, b: Bytes, c: Bytes)
    ensures Compare(a, b) == -Compare(b, a)
    ensures Compare(a, b) < 0 && Compare(b, c) < 0 ==> Compare(a, c) < 0
  {
    CompareIsLex(a, b);
    CompareIsLex(b, a);
    CompareIsLex(b, c);
    CompareIsLex(a, c);
    LexAntisymmetric(a, b);
    if Lex(a, b) < 0 && Lex(b, c) < 0 {
      LexTransitive(a, b, c);
    }
  }

  /** operator==: equal sizes and equal bytes. */
  function Equal(x: Bytes, y: Bytes): (r: bool)
    ensures r <==> x == y
  {
    |x| == |y| && MemCmp(x, y, |x|) == 0
  }

  /** operator!=: the negation of operator==. */
  function NotEqual(x: Bytes, y: Bytes): (r: bool)
    ensures r <==> x != y
  {
    !Equal(x, y)
  }

  /** compare returns 0 exactly when operator== holds. */
  lemma CompareZeroIffEqual(x: Bytes, y: Bytes)
    ensures Compare(x, y) == 0 <==> Equal(x, y)
  {
    CompareIsLexicographic(x, y);
  }

  /** starts_with: the slice is at least as long as x and begins with x's bytes. */
  function StartsWith(s: Bytes, x: Bytes): (r: bool)
    ensures r <==> |x| <= |s| && s[..|x|] == x
  {
    |s| >= |x| && MemCmp(s, x, |x|) == 0
  }

  /** A mutable view onto external bytes; the bytes it refers to are `data`. */
  class Slice {
    var data: Bytes

    /** Slice(): refers to the empty string. */
    constructor Empty()
      ensures data == []
    {
      data := [];
    }

    /** Slice(d, n): refers to d[0, n-1]. */
    constructor FromPrefix(d: Bytes, n: nat)
      requires n <= |d|
      ensures data == d[..n]
    {
      data := d[..n];
    }

    /** empty(): true iff the length is zero. */
    function IsEmpty(): (r: bool)
      reads this
      ensures r <==> Size() == 0
      ensures r <==> data == []
    {
      |data| == 0
    }

    /** size(): the number of bytes the view refers to. */
    function Size(): (n: nat)
      reads this
      ensures n == |data|
    {
      |data|
    }

    /** operator[]: byte n of the referenced data, only defined below size(). */
    function At(n: nat): (r: Byte)
      reads this
      requires n < |data|
      ensures r == data[n]
    {
      data[n]
    }

    /** clear(): the view refers to an empty array. */
    method Clear()
      modifies this
      ensures data == [] && IsEmpty()
    {
      data := [];
    }

    /** remove_prefix(n): drops the first n bytes; n may not exceed size(). */
    method RemovePrefix(n: nat)
      requires n <= |data|
      modifies this
      ensures data == old(data)[n..]
      ensures Size() == old(Size()) - n
      ensures forall i :: 0 <= i < Size() ==> At(i) == old(At(i + n))
    {
      data := data[n..];
    }
  }
}
