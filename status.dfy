/** Model of util/status.cc: a Status is either OK (no state buffer) or a
    heap buffer laid out as
      bytes 0..3  the message length, fixed32 little-endian,
      byte  4     the code,
      bytes 5..   the message: msg, or msg ++ ": " ++ msg2 when msg2 is not empty.
    ToString renders the code's prefix followed by exactly the message bytes. */
module Statuses {
  import opened Wrappers
  import opened Slices
  import opened Coding

  /** Status::Code (declared in include/leveldb/status.h, which is not part of
      this model; the numbering is leveldb's). */
  type Code = c: int | 0 <= c <= 5
  const kOk: Code := 0
  const kNotFound: Code := 1
  const kCorruption: Code := 2
  const kNotSupported: Code := 3
  const kInvalidArgument: Code := 4
  const kIOError: Code := 5

  /** The bytes of an ASCII string literal. */
  function Ascii(s: string): (r: Bytes)
    ensures |r| == |s|
  {
    seq(|s|, i requires 0 <= i < |s| => (s[i] as int) % 0x100)
  }

  /** ": ", written between msg and msg2. */
  const kSeparator: Bytes := [0x3a, 0x20]

  /** The message part of the state: msg, then ": " ++ msg2 if msg2 is not empty. */
  function Message(msg: Bytes, msg2: Bytes): (r: Bytes)
    ensures |r| == |msg| + (if |msg2| != 0 then 2 + |msg2| else 0)
    ensures r[..|msg|] == msg
  {
    if |msg2| != 0 then msg + kSeparator + msg2 else msg
  }

  /** A state buffer whose length header matches the bytes that follow the code. */
  predicate WellFormed(state: Bytes)
  {
    |state| >= 5 && DecodeFixed32(state[..4]) + 5 == |state|
  }

  /** The state buffer Status(code, msg, msg2) allocates. */
  function State(code: Code, msg: Bytes, msg2: Bytes): Bytes
    requires |Message(msg, msg2)| < 0x1_0000_0000
  {
    Fixed32(|Message(msg, msg2)|) + [code] + Message(msg, msg2)
  }

  /** The decimal digits of n. */
  function Digits(n: nat): (r: Bytes)
    ensures |r| >= 1
  {
    if n < 10 then [0x30 + n] else Digits(n / 10) + [0x30 + n % 10]
  }

  lemma {:induction false} DigitsLength(n: nat)
    ensures n < 10 ==> |Digits(n)| == 1
    ensures n < 100 ==> |Digits(n)| <= 2
    ensures n < 1000 ==> |Digits(n)| <= 3
  {
    if n >= 10 {
      DigitsLength(n / 10);
    }
  }

  /** %d of a signed value. */
  function Decimal(v: int): (r: Bytes)
    ensures |r| >= 1
  {
    if v < 0 then [0x2d] + Digits(-v) else Digits(v)
  }

  /** static_cast<int>(code()): the code byte read through a (signed) char. */
  function SignedChar(b: Byte): int
  {
    if b < 0x80 then b else b - 0x100
  }

  /** The text ToString puts in front of the message for a code byte; codes
      outside the enum get "Unknown code(%d): " through a 30-byte snprintf. */
  function TypePrefix(code: Byte): (p: Bytes)
    ensures code == kOk <==> p == Ascii("OK")
    ensures code != kOk ==> |p| >= 2 && p[|p| - 2..] == Ascii(": ")
  {
    if code == kOk then Ascii("OK")
    else if code == kNotFound then Ascii("NotFound: ")
    else if code == kCorruption then Ascii("Corruption: ")
    else if code == kNotSupported then Ascii("Not implemented: ")
    else if code == kInvalidArgument then Ascii("Invalid argument: ")
    else if code == kIOError then Ascii("IO error: ")
    else Ascii("Unknown code(") + Decimal(SignedChar(code)) + Ascii("): ")
  }

  /** Every prefix, the unknown-code one included, fits snprintf's 30-byte
      buffer with its terminating NUL, so none is truncated. */
  lemma TypePrefixFits(code: Byte)
    ensures |TypePrefix(code)| + 1 <= 30
  {
    if code > kIOError {
      var v := SignedChar(code);
      if v < 0 {
        DigitsLength(-v);
      } else {
        DigitsLength(v);
      }
    }
  }

  /** What ToString returns for a status whose state is `state`
      (None for OK). */
  function Rendered(state: Option<Bytes>): Bytes
    requires state.Some? ==> WellFormed(state.value)
  {
    match state
    case None => Ascii("OK")
    case Some(s) => TypePrefix(s[4]) + s[5..]
  }

  /** The buffer the constructor builds is well formed, records the code, and
      renders as the code's prefix followed by the message. */
  lemma StateRoundTrip(code: Code, msg: Bytes, msg2: Bytes)
    requires code != kOk
    requires |Message(msg, msg2)| < 0x1_0000_0000
    ensures WellFormed(State(code, msg, msg2))
    ensures State(code, msg, msg2)[4] == code
    ensures Rendered(Some(State(code, msg, msg2))) == TypePrefix(code) + Message(msg, msg2)
  {
    var s := State(code, msg, msg2);
    var m := Message(msg, msg2);
    assert s[..4] == Fixed32(|m|);
    Fixed32RoundTrip(|m|, s[..4]);
    assert s[5..] == m;
  }

  /** The message length is len1 when msg2 is empty and len1 + 2 + len2
      otherwise, and the message begins with msg. */
  lemma MessageLayout(msg: Bytes, msg2: Bytes)
    ensures |msg2| == 0 ==> Message(msg, msg2) == msg
    ensures |msg2| != 0 ==> |Message(msg, msg2)| == |msg| + 2 + |msg2| &&
                            Message(msg, msg2)[|msg|..|msg| + 2] == kSeparator &&
                            Message(msg, msg2)[|msg| + 2..] == msg2
  {
  }

  /** The buffer fill of Status(code, msg, msg2): the length header and code
      byte, then the message. */
  method NewState(code: Code, msg: Bytes, msg2: Bytes) returns (result: array<Byte>)
    requires |Message(msg, msg2)| + 5 < 0x1_0000_0000
    ensures fresh(result)
    ensures result[..] == State(code, msg, msg2)
  {
    var len1 := |msg|;
    var len2 := |msg2|;
    var size := len1 + (if len2 != 0 then 2 + len2 else 0);
    result := new Byte[size + 5];
    WriteHeader(result, size, code);
    ghost var header := result[..5];
    WriteMessage(result, msg, msg2);
    assert result[..5] == header;
    assert result[..] == result[..5] + result[5..];
  }

  /** memcpy of the length into bytes 0..3, then the code into byte 4. */
  method WriteHeader(result: array<Byte>, size: U32, code: Code)
    requires 5 <= result.Length
    modifies result
    ensures result[..5] == Fixed32(size) + [code]
    ensures result[5..] == old(result[5..])
  {
    EncodeFixed32(result, 0, size);
    assert result[5..] == old(result[5..]);
    result[4] := code;
    assert result[..5] == result[..4] + [code];
  }

  /** memcpy of msg to byte 5 and, when msg2 is not empty, ": " and msg2
      right after it. */
  method WriteMessage(result: array<Byte>, msg: Bytes, msg2: Bytes)
    requires result.Length == 5 + |Message(msg, msg2)|
    modifies result
    ensures result[5..] == Message(msg, msg2)
    ensures result[..5] == old(result[..5])
  {
    Store(result, 5, msg);
    assert result[..5] == old(result[..5]);
    if |msg2| != 0 {
      ghost var first := result[..5 + |msg|];
      WriteSecond(result, 5 + |msg|, msg2);
      assert result[..5 + |msg|] == first;
      assert result[5..] == msg + (kSeparator + msg2) by {
        assert result[5..] == result[5..5 + |msg|] + result[5 + |msg|..];
      }
    } else {
      assert result[5..] == result[5..5 + |msg|];
    }
  }

  /** The second half of the message: ':' and ' ' at off, then msg2. */
  method WriteSecond(result: array<Byte>, off: nat, msg2: Bytes)
    requires result.Length == off + 2 + |msg2|
    modifies result
    ensures result[off..] == kSeparator + msg2
    ensures result[..off] == old(result[..off])
  {
    result[off] := 0x3a;
    result[off + 1] := 0x20;
    Store(result, off + 2, msg2);
    assert result[..off] == old(result[..off]);
    assert result[off..] == result[off..off + 2] + result[off + 2..];
  }

  class Status {
    /** state_: null for OK. */
    const state: array?<Byte>

    ghost predicate Valid()
      reads this, state
    {
      state != null ==> WellFormed(state[..])
    }

    /** Status(): the OK status. */
    constructor OK()
      ensures state == null && Valid()
    {
      state := null;
    }

    /** Status(code, msg, msg2): fills a fresh buffer of size + 5 bytes with
        the length, the code byte and the message. */
    constructor (code: Code, msg: Bytes, msg2: Bytes)
      requires code != kOk
      requires |Message(msg, msg2)| + 5 < 0x1_0000_0000
      ensures state != null && fresh(state)
      ensures state[..] == State(code, msg, msg2)
      ensures Valid()
    {
      var result := NewState(code, msg, msg2);
      StateRoundTrip(code, msg, msg2);
      state := result;
    }

    /** code(): kOk for the OK status, otherwise the code byte. */
    function CodeByte(): (c: Byte)
      requires Valid()
      reads this, state
      ensures state == null ==> c == kOk
    {
      if state == null then kOk else state[4]
    }

    function IsOk(): (r: bool)
      reads this
      ensures r <==> state == null
    {
      state == null
    }

    /** CopyState: a fresh buffer holding the first size + 5 bytes of state,
        size being its length header; for a well-formed state, an identical
        copy. */
    static method CopyState(state: array<Byte>) returns (result: array<Byte>)
      requires state.Length >= 4 && DecodeFixed32(state[..4]) + 5 <= state.Length
      ensures fresh(result)
      ensures result[..] == state[..DecodeFixed32(state[..4]) + 5]
      ensures WellFormed(state[..]) ==> result[..] == state[..]
    {
      var size: nat := DecodeFixed32(state[..4]);
      result := new Byte[size + 5];
      for i := 0 to size + 5
        invariant result[..i] == state[..i]
      {
        result[i] := state[i];
      }
      assert result[..] == result[..size + 5];
    }

    /** ToString: "OK" for OK; otherwise the code's prefix with exactly
        `length` message bytes appended. */
    method ToString() returns (r: Bytes)
      requires Valid()
      ensures r == Rendered(if state == null then None else Some(state[..]))
    {
      if state == null {
        return Ascii("OK");
      }
      var prefix := TypePrefix(state[4]);
      r := prefix;
      var length := DecodeFixed32(state[..4]);
      for i := 0 to length
        invariant r == prefix + state[5..5 + i]
      {
        r := r + [state[5 + i]];
      }
      assert state[..][5..] == state[5..5 + length];
    }
  }
}
