/*
  The /proc text scanners of muduo's process inspector
  (muduo/net/inspect/ProcessInspector.cc): getLong, getProcessName,
  getStatField, and the days/hours/minutes/seconds split behind uptime.
  Texts are strings of char. std::string::find, atol and strtol are given
  their C library meaning here; reading /proc and formatting the page are
  not modelled.
*/
module ProcessInspector {
  import opened Wrappers

  /** The range of a 64-bit long. */
  const kLongMin: int := -0x8000_0000_0000_0000
  const kLongMax: int := 0x7fff_ffff_ffff_ffff

  // ---------------------------------------------------------------------
  // std::string::find
  // ---------------------------------------------------------------------

  /** key occurs in s starting at position i. */
  predicate MatchAt(s: string, key: string, i: nat)
  {
    i + |key| <= |s| && s[i..i + |key|] == key
  }

  /** The first occurrence of key in s at or after position i. */
  function FindFrom(s: string, key: string, i: nat): (r: Option<nat>)
    ensures r.Some? ==> i <= r.value && MatchAt(s, key, r.value)
    ensures r.Some? ==> forall j :: i <= j < r.value ==> !MatchAt(s, key, j)
    ensures r.None? ==> forall j :: i <= j ==> !MatchAt(s, key, j)
    decreases |s| - i
  {
    if i + |key| > |s| then None
    else if s[i..i + |key|] == key then Some(i)
    else FindFrom(s, key, i + 1)
  }

  /** s.find(key): the position of the first occurrence, or None for npos. */
  function Find(s: string, key: string): (r: Option<nat>)
    ensures r.Some? ==> MatchAt(s, key, r.value)
    ensures r.Some? ==> forall j :: 0 <= j < r.value ==> !MatchAt(s, key, j)
    ensures r.None? ==> forall j: nat :: !MatchAt(s, key, j)
  {
    FindFrom(s, key, 0)
  }

  /** find reports the first match: a match at n with none before it. */
  lemma FindFirst(s: string, key: string, n: nat)
    requires MatchAt(s, key, n)
    requires forall j :: 0 <= j < n ==> !MatchAt(s, key, j)
    ensures Find(s, key) == Some(n)
  {
  }

  // ---------------------------------------------------------------------
  // atol and strtol(text, NULL, 10)
  // ---------------------------------------------------------------------

  /** isspace in the C locale. */
  predicate IsSpace(c: char)
  {
    c == ' ' || c == '\t' || c == '\n' || c == '\U{0B}' || c == '\U{0C}' || c == '\r'
  }

  predicate IsDigit(c: char)
  {
    '0' <= c <= '9'
  }

  predicate AllDigits(d: string)
  {
    forall i :: 0 <= i < |d| ==> IsDigit(d[i])
  }

  /** The number of leading white-space characters of s. */
  function SpaceRun(s: string): (n: nat)
    ensures n <= |s| && (forall i :: 0 <= i < n ==> IsSpace(s[i]))
    ensures n < |s| ==> !IsSpace(s[n])
  {
    if s != [] && IsSpace(s[0]) then 1 + SpaceRun(s[1..]) else 0
  }

  /** The number of leading decimal digits of s. */
  function DigitRun(s: string): (n: nat)
    ensures n <= |s| && AllDigits(s[..n])
    ensures n < |s| ==> !IsDigit(s[n])
  {
    if s != [] && IsDigit(s[0]) then
      var n := 1 + DigitRun(s[1..]);
      assert s[..n] == [s[0]] + s[1..][..n - 1];
      n
    else 0
  }

  function DigitValue(c: char): (v: nat)
    requires IsDigit(c)
    ensures v < 10
  {
    (c as int) - ('0' as int)
  }

  function Digit(v: nat): (c: char)
    requires v < 10
    ensures IsDigit(c) && DigitValue(c) == v
  {
    (('0' as int) + v) as char
  }

  /** The number a run of decimal digits spells, most significant first. */
  function DecimalValue(d: string): nat
    requires AllDigits(d)
  {
    if d == [] then 0 else 10 * DecimalValue(d[..|d| - 1]) + DigitValue(d[|d| - 1])
  }

  /** The decimal digits of n, without leading zeros. */
  function Decimal(n: nat): (d: string)
    ensures d != [] && AllDigits(d)
  {
    if n < 10 then [Digit(n)] else Decimal(n / 10) + [Digit(n % 10)]
  }

  /** strtol(text, NULL, 10): skip white space, read an optional sign and the
      longest run of digits, and clamp to the range of long; no digits give
      0. atol is modelled by the same function: the C standard defines it as
      strtol apart from errors, where it leaves the result undefined. */
  function Strtol(text: string): (r: int)
    ensures kLongMin <= r <= kLongMax
  {
    Signed(text[SpaceRun(text)..])
  }

  /** strtol after the white space: the optional sign, then the digits. */
  function Signed(u: string): (r: int)
    ensures kLongMin <= r <= kLongMax
  {
    var negative := u != [] && u[0] == '-';
    var v := if u != [] && (u[0] == '-' || u[0] == '+') then u[1..] else u;
    var magnitude: int := DecimalValue(v[..DigitRun(v)]);
    if negative then (if -magnitude < kLongMin then kLongMin else -magnitude)
    else if magnitude > kLongMax then kLongMax else magnitude
  }

  /** DecimalValue reads back what Decimal writes. */
  lemma {:induction false} DecimalRoundTrip(n: nat)
    ensures DecimalValue(Decimal(n)) == n
  {
    if n >= 10 {
      var d := Decimal(n);
      assert d[..|d| - 1] == Decimal(n / 10);
      DecimalRoundTrip(n / 10);
    }
  }

  /** The digit run stops where the digits end. */
  lemma {:induction false} DigitRunAppend(d: string, rest: string)
    requires rest == [] || !IsDigit(rest[0])
    ensures DigitRun(d + rest) == DigitRun(d)
  {
    if d != [] && IsDigit(d[0]) {
      assert (d + rest)[1..] == d[1..] + rest;
      DigitRunAppend(d[1..], rest);
    }
  }

  /** The white-space run stops at the first other character. */
  lemma {:induction false} SpaceRunOver(pad: string, rest: string)
    requires forall i :: 0 <= i < |pad| ==> IsSpace(pad[i])
    requires rest == [] || !IsSpace(rest[0])
    ensures SpaceRun(pad + rest) == |pad|
  {
    if pad != [] {
      assert (pad + rest)[1..] == pad[1..] + rest;
      SpaceRunOver(pad[1..], rest);
    }
  }

  /** White space, then the decimal digits of n, then anything but a digit:
      strtol reads n. */
  lemma StrtolDecimal(pad: string, n: nat, rest: string)
    requires forall i :: 0 <= i < |pad| ==> IsSpace(pad[i])
    requires n <= kLongMax
    requires rest == [] || !IsDigit(rest[0])
    ensures Strtol(pad + Decimal(n) + rest) == n
  {
    var d := Decimal(n);
    var text := pad + d + rest;
    assert text == pad + (d + rest);
    SpaceRunOver(pad, d + rest);
    var u := text[SpaceRun(text)..];
    assert u == d + rest;
    DigitRunAppend(d, rest);
    assert DigitRun(d) == |d|;
    assert u[..|d|] == d;
    DecimalRoundTrip(n);
  }

  /** strtol reads only the front of a word that does not start with white
      space: what follows the word, from a non-digit on, is never read. */
  lemma StrtolWord(w: string, rest: string)
    requires w != [] && !IsSpace(w[0])
    requires rest == [] || !IsDigit(rest[0])
    ensures Strtol(w + rest) == Strtol(w)
  {
    var t := w + rest;
    assert t[0] == w[0];
    assert SpaceRun(t) == 0 && SpaceRun(w) == 0;
    assert t[0..] == t && w[0..] == w;
    var v := if w[0] == '-' || w[0] == '+' then w[1..] else w;
    var vt := if t[0] == '-' || t[0] == '+' then t[1..] else t;
    assert vt == v + rest;
    DigitRunAppend(v, rest);
    assert vt[..DigitRun(vt)] == v[..DigitRun(v)];
  }

  // ---------------------------------------------------------------------
  // getLong
  // ---------------------------------------------------------------------

  /** getLong(procStatus, key): atol of the text just after the first
      occurrence of key, or 0 when key does not occur. */
  function GetLong(procStatus: string, key: string): (r: int)
    ensures Find(procStatus, key).None? ==> r == 0
    ensures kLongMin <= r <= kLongMax
  {
    match Find(procStatus, key)
    case None => 0
    case Some(pos) => Strtol(procStatus[pos + |key|..])
  }

  /** A status line such as "VmRSS:\t  1234 kB": the number after the first
      occurrence of the key is what getLong reads. */
  lemma GetLongOfLine(s: string, head: string, key: string, pad: string, n: nat, rest: string)
    requires s == head + key + pad + Decimal(n) + rest
    requires forall i :: 0 <= i < |head| ==> !MatchAt(s, key, i)
    requires forall i :: 0 <= i < |pad| ==> IsSpace(pad[i])
    requires n <= kLongMax
    requires rest == [] || !IsDigit(rest[0])
    ensures GetLong(s, key) == n
  {
    var p := |head|;
    assert s == head + (key + (pad + Decimal(n) + rest));
    assert s[p..p + |key|] == key;
    assert s[p + |key|..] == pad + Decimal(n) + rest;
    StrtolDecimal(pad, n, rest);
    GetLongAt(s, key, p);
  }

  /** getLong reads the number after the first occurrence of the key. */
  lemma GetLongAt(s: string, key: string, p: nat)
    requires MatchAt(s, key, p) && forall i :: 0 <= i < p ==> !MatchAt(s, key, i)
    ensures GetLong(s, key) == Strtol(s[p + |key|..])
  {
    FindFirst(s, key, p);
  }

  // ---------------------------------------------------------------------
  // getProcessName
  // ---------------------------------------------------------------------

  /** The first position at or after i holding c. */
  function IndexOf(s: string, c: char, i: nat): (r: Option<nat>)
    ensures r.Some? ==> i <= r.value < |s| && s[r.value] == c
    ensures r.Some? ==> forall k :: i <= k < r.value ==> s[k] != c
    ensures r.None? ==> forall k :: i <= k < |s| ==> s[k] != c
    decreases |s| - i
  {
    if i >= |s| then None
    else if s[i] == c then Some(i)
    else IndexOf(s, c, i + 1)
  }

  /** The first position at or after i that is not a tab. */
  function SkipTabs(s: string, i: nat): (j: nat)
    requires i <= |s|
    ensures i <= j <= |s| && forall k :: i <= k < j ==> s[k] == '\t'
    ensures j < |s| ==> s[j] != '\t'
    decreases |s| - i
  {
    if i < |s| && s[i] == '\t' then SkipTabs(s, i + 1) else i
  }

  /** What getProcessName needs of its text: when "Name:" occurs, a newline
      follows it; the scan for the end of the line reads past the string
      otherwise. */
  predicate NameLineEnds(procStatus: string)
  {
    match Find(procStatus, "Name:")
    case None => true
    case Some(pos) => IndexOf(procStatus, '\n', pos + 5).Some?
  }

  /** The process name: the rest of the line after the first "Name:", with
      its leading tabs dropped; "" when "Name:" does not occur. */
  function ProcessName(procStatus: string): (r: string)
    requires NameLineEnds(procStatus)
    ensures Find(procStatus, "Name:").None? ==> r == ""
    ensures '\n' !in r
    ensures r != [] ==> r[0] != '\t'
  {
    match Find(procStatus, "Name:")
    case None => ""
    case Some(pos) =>
      var start := SkipTabs(procStatus, pos + 5);
      var eol := IndexOf(procStatus, '\n', pos + 5).value;
      var r := procStatus[start..eol];
      assert forall k :: 0 <= k < |r| ==> r[k] == procStatus[start + k] != '\n';
      r
  }

  /** getProcessName: skips the tabs after "Name:", then scans to the end of
      the line. */
  method GetProcessName(procStatus: string) returns (result: string)
    requires NameLineEnds(procStatus)
    ensures result == ProcessName(procStatus)
  {
    result := "";
    var found := Find(procStatus, "Name:");
    if found.Some? {
      ghost var newline := IndexOf(procStatus, '\n', found.value + 5).value;
      var pos := found.value + 5;
      while pos < |procStatus| && procStatus[pos] == '\t'
        invariant found.value + 5 <= pos <= newline
        invariant SkipTabs(procStatus, pos) == SkipTabs(procStatus, found.value + 5)
        decreases |procStatus| - pos
      {
        pos := pos + 1;
      }
      var eol := pos;
      while procStatus[eol] != '\n'
        invariant pos <= eol <= newline
        decreases newline - eol
      {
        eol := eol + 1;
      }
      result := procStatus[pos..eol];
    }
  }

  /** A line "Name:<tabs><name>\n" after text holding no "Name:": the name
      is what getProcessName returns. */
  lemma ProcessNameOfLine(s: string, head: string, tabs: string, name: string, tail: string)
    requires s == head + "Name:" + tabs + name + "\n" + tail
    requires forall i :: 0 <= i < |head| ==> !MatchAt(s, "Name:", i)
    requires forall i :: 0 <= i < |tabs| ==> tabs[i] == '\t'
    requires '\n' !in name && (name == [] || name[0] != '\t')
    ensures NameLineEnds(s) && ProcessName(s) == name
  {
    var first := |head| + 5;
    var start := first + |tabs|;
    var eol := start + |name|;
    assert s[|head|..first] == "Name:";
    FindFirst(s, "Name:", |head|);
    assert s[first..start] == tabs;
    assert s[start..eol] == name;
    assert s[eol] == '\n';
    assert s[start] != '\t' by {
      if name != [] {
        assert s[start] == name[0];
      }
    }
    assert forall k :: first <= k < start ==> s[k] == s[first..start][k - first];
    assert forall k :: start <= k < eol ==> s[k] == s[start..eol][k - start];
    ProcessNameAt(s, |head|, start, eol);
  }

  /** Tabs from just after "Name:" up to `start`, then a line that ends at
      `eol`: the name is the text between. */
  lemma ProcessNameAt(s: string, pos: nat, start: nat, eol: nat)
    requires Find(s, "Name:") == Some(pos)
    requires pos + 5 <= start <= eol < |s| && s[eol] == '\n'
    requires forall k :: pos + 5 <= k < start ==> s[k] == '\t'
    requires s[start] != '\t'
    requires forall k :: start <= k < eol ==> s[k] != '\n'
    ensures NameLineEnds(s) && ProcessName(s) == s[start..eol]
  {
    assert forall k :: pos + 5 <= k < eol ==> s[k] != '\n';
    assert IndexOf(s, '\n', pos + 5) == Some(eol);
    assert SkipTabs(s, pos + 5) == start;
  }

  /** "Name:\tinspector\n..." names the process "inspector". */
  lemma ProcessNameExample(status: string)
    requires status == "Name:\tinspector\nState:\tS\n"
    ensures NameLineEnds(status) && ProcessName(status) == "inspector"
  {
    assert "" + "Name:" + "\t" + "inspector" + "\n" + "State:\tS\n" == status;
    ProcessNameOfLine(status, "", "\t", "inspector", "State:\tS\n");
  }

  // ---------------------------------------------------------------------
  // getStatField
  // ---------------------------------------------------------------------

  /** The first space at or after i, or the end of s. */
  function SkipNonSpace(s: string, i: nat): (j: nat)
    requires i <= |s|
    ensures i <= j <= |s| && forall k :: i <= k < j ==> s[k] != ' '
    ensures j < |s| ==> s[j] == ' '
    decreases |s| - i
  {
    if i < |s| && s[i] != ' ' then SkipNonSpace(s, i + 1) else i
  }

  /** The first character at or after i that is not a space, or the end. */
  function SkipSpaces(s: string, i: nat): (j: nat)
    requires i <= |s|
    ensures i <= j <= |s| && forall k :: i <= k < j ==> s[k] == ' '
    ensures j < |s| ==> s[j] != ' '
    decreases |s| - i
  {
    if i < |s| && s[i] == ' ' then SkipSpaces(s, i + 1) else i
  }

  /** One pass of getStatField's loop from inside the text: past the
      characters up to the next space, then past the spaces. It always
      moves forward. */
  function Advance(s: string, i: nat): (j: nat)
    requires i < |s|
    ensures i < j <= |s|
  {
    SkipSpaces(s, SkipNonSpace(s, i))
  }

  /** Where k passes of the loop lead from position i, or None when the text
      ends before the k-th pass could start. */
  function Reach(s: string, i: nat, k: nat): (r: Option<nat>)
    ensures r.Some? && k > 0 ==> r.value <= |s|
    decreases k
  {
    if k == 0 then Some(i)
    else if i < |s| then Reach(s, Advance(s, i), k - 1)
    else None
  }

  /** What getStatField needs of its text: the scan starts 4 characters past
      ") ", and when it reads field 0 there, that position lies within the
      text (strtol would read past it otherwise). */
  predicate StatStartInBounds(procStat: string, field: int)
  {
    match Find(procStat, ") ")
    case None => true
    case Some(pos) => field != 0 || pos + 4 <= |procStat|
  }

  /** The field getStatField reads: start 4 characters past the first ") "
      (past the state letter and its space), pass `field` fields, and read a
      number there; -1 when ") " does not occur, when field is negative, or
      when the text ends before the field-th pass. */
  function StatField(procStat: string, field: int): (r: int)
    requires StatStartInBounds(procStat, field)
    ensures Find(procStat, ") ").None? || field < 0 ==> r == -1
    ensures kLongMin <= r <= kLongMax
  {
    match Find(procStat, ") ")
    case None => -1
    case Some(pos) =>
      if field < 0 then -1
      else
        match Reach(procStat, pos + 4, field)
        case None => -1
        case Some(start) => Strtol(procStat[start..])
  }

  /** getStatField: the scan over the fields of /proc/self/stat. */
  method GetStatField(procStat: string, field: int) returns (result: int)
    requires StatStartInBounds(procStat, field)
    ensures result == StatField(procStat, field)
  {
    result := -1;
    var found := Find(procStat, ") ");
    if found.Some? {
      var start: nat := found.value + 4;
      var f: nat := 0;
      var end := |procStat|;
      while f < field && start < end
        invariant 0 <= f && (field >= 0 ==> f <= field)
        invariant f > 0 ==> start <= end
        invariant field >= 0 ==> Reach(procStat, found.value + 4, field) == Reach(procStat, start, field - f)
        decreases field - f
      {
        ghost var from := start;
        while start < end && procStat[start] != ' '
          invariant from <= start <= end
          invariant SkipNonSpace(procStat, start) == SkipNonSpace(procStat, from)
          decreases end - start
        {
          start := start + 1;
        }
        f := f + 1;
        ghost var gap := start;
        while start < end && procStat[start] == ' '
          invariant gap <= start <= end
          invariant SkipSpaces(procStat, start) == SkipSpaces(procStat, gap)
          decreases end - start
        {
          start := start + 1;
        }
        assert start == Advance(procStat, from);
      }
      if f == field {
        result := Strtol(procStat[start..]);
      }
    }
  }

  /** A field of /proc/self/stat: not empty, no space in it, and not starting
      with white space. */
  predicate Word(w: string)
  {
    w != [] && !IsSpace(w[0]) && forall i :: 0 <= i < |w| ==> w[i] != ' '
  }

  /** Words separated by single spaces. */
  function Join(ws: seq<string>): string
  {
    if ws == [] then "" else if |ws| == 1 then ws[0] else ws[0] + " " + Join(ws[1..])
  }

  /** Join starts with its first word, followed by the end or by a space and
      the rest. */
  lemma JoinFirst(ws: seq<string>)
    requires ws != [] && forall i :: 0 <= i < |ws| ==> Word(ws[i])
    ensures Join(ws)[..|ws[0]|] == ws[0]
    ensures |ws| == 1 ==> Join(ws) == ws[0]
    ensures |ws| > 1 ==> Join(ws) == ws[0] + " " + Join(ws[1..]) && Word(ws[1]) &&
                         Join(ws[1..]) != [] && Join(ws[1..])[0] == ws[1][0]
  {
    if |ws| > 1 {
      assert ws[1..][0] == ws[1];
      if |ws| > 2 {
        assert Join(ws[1..]) == ws[1] + " " + Join(ws[2..]);
      }
    }
  }

  /** Passing over a word stops at the space after it or at the end. */
  lemma SkipWord(s: string, b: nat, w: string)
    requires Word(w) && b + |w| <= |s| && s[b..b + |w|] == w
    requires b + |w| == |s| || s[b + |w|] == ' '
    ensures SkipNonSpace(s, b) == b + |w|
  {
  }

  /** Over words separated by single spaces, k passes of the loop reach the
      k-th word, the end after the last word, and no further. */
  lemma {:induction false} ReachWords(s: string, b: nat, ws: seq<string>, k: nat)
    requires b <= |s| && s[b..] == Join(ws)
    requires forall i :: 0 <= i < |ws| ==> Word(ws[i])
    ensures k < |ws| ==> Reach(s, b, k).Some? && Reach(s, b, k).value <= |s| &&
                         s[Reach(s, b, k).value..] == Join(ws[k..])
    ensures k == |ws| ==> Reach(s, b, k) == Some(|s|)
    ensures k > |ws| ==> Reach(s, b, k) == None
    decreases k
  {
    if ws == [] {
      assert b == |s|;
    } else if k == 0 {
      assert ws[0..] == ws;
    } else {
      AdvanceWord(s, b, ws);
      ReachWords(s, Advance(s, b), ws[1..], k - 1);
      if k < |ws| {
        assert ws[1..][k - 1..] == ws[k..];
      }
    }
  }

  /** One pass of the loop over words separated by single spaces lands on
      the next word. */
  lemma AdvanceWord(s: string, b: nat, ws: seq<string>)
    requires b <= |s| && s[b..] == Join(ws) && ws != []
    requires forall i :: 0 <= i < |ws| ==> Word(ws[i])
    ensures b < |s| && Advance(s, b) <= |s| && s[Advance(s, b)..] == Join(ws[1..])
  {
    JoinFirst(ws);
    if |ws| == 1 {
      AdvanceLast(s, b, ws[0]);
      assert s[|s|..] == Join(ws[1..]);
    } else {
      AdvanceBetween(s, b, ws[0], Join(ws[1..]));
    }
  }

  /** Past the last word the loop reaches the end of the text. */
  lemma AdvanceLast(s: string, b: nat, w: string)
    requires b <= |s| && s[b..] == w && Word(w)
    ensures b < |s| && Advance(s, b) == |s|
  {
    assert s[b..b + |w|] == w;
    SkipWord(s, b, w);
  }

  /** Past a word and the single space after it the loop reaches the next
      word. */
  lemma AdvanceBetween(s: string, b: nat, w: string, rest: string)
    requires b <= |s| && s[b..] == w + " " + rest && Word(w)
    requires rest != [] && rest[0] != ' '
    ensures b < |s| && Advance(s, b) == b + |w| + 1 && s[b + |w| + 1..] == rest
  {
    var e := b + |w|;
    assert s[b..e] == w;
    assert s[e] == ' ';
    SkipWord(s, b, w);
    assert s[e + 1] == rest[0];
    assert SkipSpaces(s, e + 1) == e + 1;
  }

  /** What follows the k-th word in Join(ws): nothing after the last word,
      otherwise a space and the words after it. */
  function JoinRest(ws: seq<string>, k: nat): string
    requires k < |ws|
  {
    if k + 1 < |ws| then " " + Join(ws[k + 1..]) else ""
  }

  lemma JoinFrom(ws: seq<string>, k: nat)
    requires k < |ws| && forall i :: 0 <= i < |ws| ==> Word(ws[i])
    ensures Join(ws[k..]) == ws[k] + JoinRest(ws, k)
  {
    var t := ws[k..];
    assert t[0] == ws[k];
    if k + 1 < |ws| {
      assert t[1..] == ws[k + 1..];
    }
  }

  /** The layout of a stat line: the first ") " closes the name, and the
      fields start four characters after it. */
  lemma StatLineStart(s: string, head: string, state: string, fields: string)
    requires s == head + ") " + state + fields
    requires |state| == 2
    requires forall i :: 0 <= i < |head| ==> !MatchAt(s, ") ", i)
    ensures Find(s, ") ") == Some(|head|)
    ensures s[|head| + 4..] == fields
  {
    assert s[|head|..|head| + 2] == ") ";
    FindFirst(s, ") ", |head|);
  }

  /** getStatField reads at the position `field` passes lead to, if any. */
  lemma StatFieldReach(s: string, pos: nat, field: nat)
    requires Find(s, ") ") == Some(pos) && (field != 0 || pos + 4 <= |s|)
    ensures StatStartInBounds(s, field)
    ensures Reach(s, pos + 4, field).None? ==> StatField(s, field) == -1
    ensures Reach(s, pos + 4, field).Some? ==>
              Reach(s, pos + 4, field).value <= |s| &&
              StatField(s, field) == Strtol(s[Reach(s, pos + 4, field).value..])
  {
  }

  /** A stat line "<pid> (<name>) <state> <fields...>" whose fields are
      words separated by single spaces, with no ") " before the one closing
      the name: getStatField(k) reads field k, gives 0 for k one past the
      last field (the scan ends exactly at the end of the text) and -1 for
      any k further on or negative. */
  lemma StatFieldOfWords(s: string, head: string, state: string, ws: seq<string>, k: int)
    requires s == head + ") " + state + Join(ws)
    requires |state| == 2
    requires forall i :: 0 <= i < |head| ==> !MatchAt(s, ") ", i)
    requires forall i :: 0 <= i < |ws| ==> Word(ws[i])
    ensures StatStartInBounds(s, k)
    ensures StatField(s, k) == if 0 <= k < |ws| then Strtol(ws[k]) else if k == |ws| then 0 else -1
  {
    StatLineStart(s, head, state, Join(ws));
    if k >= 0 {
      StatFieldOfJoin(s, |head|, ws, k);
    }
  }

  lemma StatFieldOfJoin(s: string, pos: nat, ws: seq<string>, k: nat)
    requires Find(s, ") ") == Some(pos) && pos + 4 <= |s| && s[pos + 4..] == Join(ws)
    requires forall i :: 0 <= i < |ws| ==> Word(ws[i])
    ensures StatStartInBounds(s, k)
    ensures StatField(s, k) == if k < |ws| then Strtol(ws[k]) else if k == |ws| then 0 else -1
  {
    ReachWords(s, pos + 4, ws, k);
    StatFieldReach(s, pos, k);
    if k < |ws| {
      JoinFrom(ws, k);
      StrtolWord(ws[k], JoinRest(ws, k));
    } else if k == |ws| {
      assert s[|s|..] == [];
    }
  }

  // ---------------------------------------------------------------------
  // The uptime split
  // ---------------------------------------------------------------------

  /** C's int. */
  type Int32 = x: int | -0x8000_0000 <= x < 0x8000_0000

  /** C's integer division, which truncates toward zero. */
  function Quot(a: int, b: int): int
    requires b > 0
  {
    if a >= 0 then a / b else -((-a) / b)
  }

  /** C's %, whose result takes the sign of the dividend. */
  function Rem(a: int, b: int): int
    requires b > 0
  {
    a - b * Quot(a, b)
  }

  datatype Uptime = Uptime(days: int, hours: int, minutes: int, seconds: int)

  /** uptime's split of the elapsed seconds into days, hours, minutes and
      seconds, with C's / and %. */
  function SplitUptime(seconds: Int32): (u: Uptime)
    ensures seconds >= 0 ==> u.days >= 0 && u.hours >= 0 && u.minutes >= 0 && u.seconds >= 0
    ensures seconds <= 0 ==> u.days <= 0 && u.hours <= 0 && u.minutes <= 0 && u.seconds <= 0
  {
    TruncatedSign(seconds, 86400);
    TruncatedSign(seconds, 3600);
    TruncatedSign(seconds, 60);
    TruncatedSign(Rem(seconds, 86400), 3600);
    TruncatedSign(Rem(seconds, 3600), 60);
    Uptime(Quot(seconds, 86400), Quot(Rem(seconds, 86400), 3600),
           Quot(Rem(seconds, 3600), 60), Rem(seconds, 60))
  }

  /** C's quotient and remainder take the sign of the dividend. */
  lemma TruncatedSign(a: int, b: int)
    requires b > 0
    ensures a >= 0 ==> Quot(a, b) >= 0 && Rem(a, b) >= 0
    ensures a <= 0 ==> Quot(a, b) <= 0 && Rem(a, b) <= 0
  {
    var t := if a >= 0 then a else -a;
    assert t == b * (t / b) + t % b;
    if a < 0 {
      assert Rem(a, b) == -(t % b);
    }
  }

  /** The remainder of t by b, when t is q times b plus less than b. */
  lemma RemainderOf(t: nat, b: nat, q: nat, r: nat)
    requires b > 0 && r < b && t == b * q + r
    ensures t % b == r
  {
    var k := t / b;
    assert t == b * k + t % b;
    if k < q {
      assert b * q == b * k + b * (q - k);
      MoreThanOnce(b, q - k);
    } else if k > q {
      assert b * k == b * q + b * (k - q);
      MoreThanOnce(b, k - q);
    }
  }

  lemma MoreThanOnce(b: nat, n: nat)
    requires n >= 1
    ensures b * n >= b
  {
    assert b * n == b + b * (n - 1);
  }

  /** The split of a non-negative count. */
  lemma SplitNonNegative(t: nat)
    ensures (t / 86400) * 86400 + ((t % 86400) / 3600) * 3600 + ((t % 3600) / 60) * 60 + t % 60 == t
    ensures (t % 86400) / 3600 < 24
  {
    var d := t / 86400;
    var r1 := t % 86400;
    var h := r1 / 3600;
    var r2 := r1 % 3600;
    var m := r2 / 60;
    RemainderOf(t, 3600, 24 * d + h, r2);
    RemainderOf(t, 60, 1440 * d + 60 * h + m, r2 % 60);
  }

  /** The split adds back up to the seconds, and its hours, minutes and
      seconds are within a day, an hour and a minute. For a non-negative
      count they are the clock reading; for a negative count (a clock set
      back) every part is negative or zero. */
  lemma UptimeSplit(seconds: Int32)
    ensures var u := SplitUptime(seconds);
            u.days * 86400 + u.hours * 3600 + u.minutes * 60 + u.seconds == seconds
    ensures var u := SplitUptime(seconds);
            seconds >= 0 ==> u.days >= 0 && 0 <= u.hours < 24 && 0 <= u.minutes < 60 && 0 <= u.seconds < 60
    ensures var u := SplitUptime(seconds);
            seconds < 0 ==> u.days <= 0 && -24 < u.hours <= 0 && -60 < u.minutes <= 0 && -60 < u.seconds <= 0
  {
    var t: nat := if seconds >= 0 then seconds as int else -(seconds as int);
    SplitNonNegative(t);
    var u := SplitUptime(seconds);
    if seconds >= 0 {
      assert u == Uptime(t / 86400, (t % 86400) / 3600, (t % 3600) / 60, t % 60);
    } else {
      assert Rem(seconds, 86400) == -(t % 86400);
      assert Rem(seconds, 3600) == -(t % 3600);
      assert u == Uptime(-(t / 86400), -((t % 86400) / 3600), -((t % 3600) / 60), -(t % 60));
    }
  }
}
