/** The `str` operations that the firmware's header, form and URL parsers use, on UTF-8 bytes. */
module Text {
  import opened Bytes

  const COLON: byte := ':' as int
  const AMP: byte := '&' as int
  const EQUALS: byte := '=' as int

  // ---- Searching and splitting ----------------------------------------------------------------

  predicate MatchAt(hay: seq<byte>, needle: seq<byte>, i: nat)
  {
    i + |needle| <= |hay| && hay[i..i + |needle|] == needle
  }

  /** The first occurrence of `needle` at or after `from`. */
  function FindFrom(hay: seq<byte>, needle: seq<byte>, from: nat): (r: Option<nat>)
    requires needle != []
    ensures r.Some? ==> from <= r.value && MatchAt(hay, needle, r.value)
    ensures forall j :: from <= j && (r.Some? ==> j < r.value) ==> !MatchAt(hay, needle, j)
    decreases if from <= |hay| then |hay| - from else 0
  {
    if from + |needle| > |hay| then None
    else if MatchAt(hay, needle, from) then Some(from)
    else FindFrom(hay, needle, from + 1)
  }

  function Find(hay: seq<byte>, needle: seq<byte>): (r: Option<nat>)
    requires needle != []
    ensures r.Some? ==> MatchAt(hay, needle, r.value)
    ensures forall j: nat :: (r.Some? ==> j < r.value) ==> !MatchAt(hay, needle, j)
  {
    FindFrom(hay, needle, 0)
  }

  /** Two first occurrences are the same. */
  lemma FindIs(hay: seq<byte>, needle: seq<byte>, i: nat)
    requires needle != [] && MatchAt(hay, needle, i)
    requires forall j: nat :: j < i ==> !MatchAt(hay, needle, j)
    ensures Find(hay, needle) == Some(i)
  {
    var r := Find(hay, needle);
    assert r.None? ==> !MatchAt(hay, needle, i);
    assert r.Some? && r.value > i ==> !MatchAt(hay, needle, i);
  }

  /** `find_subslice`: the position of the first window equal to `needle`. */
  method FindSubslice(hay: seq<byte>, needle: seq<byte>) returns (r: Option<nat>)
    requires needle != []
    ensures r == Find(hay, needle)
  {
    var i := 0;
    while i + |needle| <= |hay|
      invariant forall j: nat :: j < i ==> !MatchAt(hay, needle, j)
      decreases |hay| - i
    {
      if hay[i..i + |needle|] == needle {
        FindIs(hay, needle, i);
        return Some(i);
      }
      i := i + 1;
    }
    return None;
  }

  /** `split_once`: before and after the first occurrence. */
  function SplitOnce(s: seq<byte>, sep: seq<byte>): (r: Option<(seq<byte>, seq<byte>)>)
    requires sep != []
    ensures r.Some? ==> r.value.0 + sep + r.value.1 == s
  {
    match Find(s, sep)
    case None => None
    case Some(i) => Some((s[..i], s[i + |sep|..]))
  }

  /** `rsplit_once` on a single byte: before and after the last occurrence. */
  function RSplitOnce(s: seq<byte>, sep: byte): (r: Option<(seq<byte>, seq<byte>)>)
    ensures r.Some? ==> r.value.0 + [sep] + r.value.1 == s && sep !in r.value.1
    ensures r.None? ==> sep !in s
  {
    if s == [] then None
    else if s[|s| - 1] == sep then Some((s[..|s| - 1], []))
    else
      assert s == s[..|s| - 1] + [s[|s| - 1]];
      match RSplitOnce(s[..|s| - 1], sep)
      case None => None
      case Some((a, b)) => Some((a, b + [s[|s| - 1]]))
  }

  /** `split`: the pieces between occurrences; always at least one. */
  function Split(s: seq<byte>, sep: seq<byte>): (r: seq<seq<byte>>)
    requires sep != []
    ensures |r| >= 1
    decreases |s|
  {
    match SplitOnce(s, sep)
    case None => [s]
    case Some((a, b)) => [a] + Split(b, sep)
  }

  /** The lines of a message, each ended by CR LF. */
  function HeaderLines(lines: seq<seq<byte>>): seq<byte>
  {
    if lines == [] then [] else lines[0] + [CR, LF] + HeaderLines(lines[1..])
  }

  lemma FindByte(a: seq<byte>, sep: byte, b: seq<byte>)
    requires sep !in a
    ensures Find(a + [sep] + b, [sep]) == Some(|a|)
  {
    var s := a + [sep] + b;
    assert MatchAt(s, [sep], |a|);
    forall j: nat | j < |a| ensures !MatchAt(s, [sep], j) {
      assert s[j] == a[j];
      assert s[j..j + 1] == [a[j]];
    }
    FindIs(s, [sep], |a|);
  }

  lemma SplitOnceByte(a: seq<byte>, sep: byte, b: seq<byte>)
    requires sep !in a
    ensures SplitOnce(a + [sep] + b, [sep]) == Some((a, b))
  {
    FindByte(a, sep, b);
    var s := a + [sep] + b;
    assert s[..|a|] == a && s[|a| + 1..] == b;
  }

  lemma FindNoByte(s: seq<byte>, sep: byte)
    requires sep !in s
    ensures Find(s, [sep]) == None
  {
    forall j: nat ensures !MatchAt(s, [sep], j) {
      if j < |s| {
        assert s[j..j + 1] == [s[j]];
        assert [s[j]][0] != [sep][0];
      }
    }
  }

  lemma {:induction false} RSplitByte(a: seq<byte>, sep: byte, b: seq<byte>)
    requires sep !in b
    ensures RSplitOnce(a + [sep] + b, sep) == Some((a, b))
  {
    var s := a + [sep] + b;
    if b == [] {
      assert s[..|s| - 1] == a;
    } else {
      var c, last := b[..|b| - 1], b[|b| - 1];
      RSplitByte(a, sep, c);
      assert s[..|s| - 1] == a + [sep] + c;
      assert b == c + [last];
    }
  }

  // ---- White space, case, numbers -------------------------------------------------------------

  /** Length of the white-space character that `s` starts with, or 0. */
  function BlankFront(s: seq<byte>): (n: nat)
    ensures n <= |s|
  {
    if s == [] then 0
    else if 9 <= s[0] <= 13 || s[0] == 32 then 1
    else if |s| >= 2 && s[0] == 0xC2 && (s[1] == 0x85 || s[1] == 0xA0) then 2
    else if |s| >= 3 && IsWideBlank(s[0], s[1], s[2]) then 3
    else 0
  }

  function BlankBack(s: seq<byte>): (n: nat)
    ensures n <= |s|
  {
    var k := |s|;
    if s == [] then 0
    else if 9 <= s[k - 1] <= 13 || s[k - 1] == 32 then 1
    else if k >= 2 && s[k - 2] == 0xC2 && (s[k - 1] == 0x85 || s[k - 1] == 0xA0) then 2
    else if k >= 3 && IsWideBlank(s[k - 3], s[k - 2], s[k - 1]) then 3
    else 0
  }

  /** U+1680, U+2000..200A, U+2028, U+2029, U+202F, U+205F and U+3000. */
  predicate IsWideBlank(a: byte, b: byte, c: byte)
  {
    || (a == 0xE1 && b == 0x9A && c == 0x80)
    || (a == 0xE2 && b == 0x80 && (0x80 <= c <= 0x8A || c == 0xA8 || c == 0xA9 || c == 0xAF))
    || (a == 0xE2 && b == 0x81 && c == 0x9F)
    || (a == 0xE3 && b == 0x80 && c == 0x80)
  }

  function TrimFront(s: seq<byte>): seq<byte>
    decreases |s|
  {
    if BlankFront(s) == 0 then s else TrimFront(s[BlankFront(s)..])
  }

  function TrimBack(s: seq<byte>): seq<byte>
    decreases |s|
  {
    if BlankBack(s) == 0 then s else TrimBack(s[..|s| - BlankBack(s)])
  }

  function Trim(s: seq<byte>): seq<byte> { TrimBack(TrimFront(s)) }

  lemma TrimInk(x: seq<byte>)
    requires x != [] && 32 < x[0] < 0x80 && 32 < x[|x| - 1] < 0x80
    ensures Trim([32] + x) == x && Trim(x) == x
  {
    var s := [32] + x;
    assert BlankFront(s) == 1 && s[1..] == x;
    assert BlankFront(x) == 0 && BlankBack(x) == 0;
    assert TrimFront(s) == TrimFront(x);
  }

  function Lower(c: byte): byte
  {
    if 'A' as int <= c <= 'Z' as int then c + 32 else c
  }

  /** `eq_ignore_ascii_case`. */
  predicate SameIgnoringCase(s: seq<byte>, t: seq<byte>)
  {
    |s| == |t| && forall i :: 0 <= i < |s| ==> Lower(s[i]) == Lower(t[i])
  }

  /** Equal up to case means equal, or the two cases of one ASCII letter. */
  lemma CaseOnly(a: byte, b: byte)
    ensures Lower(a) == Lower(b) <==>
            || a == b
            || ('A' as int <= a <= 'Z' as int && b == a + 32)
            || ('A' as int <= b <= 'Z' as int && a == b + 32)
  {
  }

  predicate IsDigit(c: byte) { '0' as int <= c <= '9' as int }

  predicate AllDigits(s: seq<byte>)
  {
    forall i :: 0 <= i < |s| ==> IsDigit(s[i])
  }

  function DecimalValue(s: seq<byte>): nat
    requires AllDigits(s)
  {
    if s == [] then 0
    else assert IsDigit(s[|s| - 1]); DecimalValue(s[..|s| - 1]) * 10 + (s[|s| - 1] - '0' as int)
  }

  function DropPlus(s: seq<byte>): seq<byte>
  {
    if s != [] && s[0] == '+' as int then s[1..] else s
  }

  /** `parse` for an unsigned type with values below `bound`: an optional `+`, then digits. */
  function ParseUnsigned(s: seq<byte>, bound: nat): (r: Option<nat>)
    ensures r.Some? ==> r.value < bound && DropPlus(s) != [] && AllDigits(DropPlus(s))
  {
    var d := DropPlus(s);
    if d == [] || !AllDigits(d) || DecimalValue(d) >= bound then None else Some(DecimalValue(d))
  }

  /** The decimal digits of `n`. */
  function DecimalText(n: nat): (s: seq<byte>)
    ensures s != [] && AllDigits(s)
  {
    if n < 10 then ['0' as int + n] else DecimalText(n / 10) + ['0' as int + n % 10]
  }

  lemma {:induction false} DecimalRoundTrip(n: nat)
    ensures DecimalValue(DecimalText(n)) == n
  {
    var s := DecimalText(n);
    if n >= 10 {
      DecimalRoundTrip(n / 10);
      assert s[..|s| - 1] == DecimalText(n / 10);
    } else {
      assert s[..0] == [];
      assert DecimalValue(s[..0]) == 0;
    }
  }

  lemma ParseDecimal(n: nat, bound: nat)
    requires n < bound
    ensures ParseUnsigned(DecimalText(n), bound) == Some(n)
  {
    hide DecimalText, DecimalValue;
    DecimalRoundTrip(n);
    assert IsDigit(DecimalText(n)[0]);
  }

  // ---- UTF-8 ----------------------------------------------------------------------------------

  predicate Tail(c: byte) { 0x80 <= c <= 0xBF }

  /** Length of the well-formed character `s` starts with, or 0 (section 4 of RFC 3629). */
  function CharLen(s: seq<byte>): (n: nat)
    ensures n <= |s| && n <= 4
  {
    if s == [] then 0
    else if s[0] < 0x80 then 1
    else if 0xC2 <= s[0] <= 0xDF && |s| >= 2 && Tail(s[1]) then 2
    else if 0xE0 <= s[0] <= 0xEF && |s| >= 3 && Tail(s[1]) && Tail(s[2])
            && (s[0] == 0xE0 ==> s[1] >= 0xA0) && (s[0] == 0xED ==> s[1] <= 0x9F) then 3
    else if 0xF0 <= s[0] <= 0xF4 && |s| >= 4 && Tail(s[1]) && Tail(s[2]) && Tail(s[3])
            && (s[0] == 0xF0 ==> s[1] >= 0x90) && (s[0] == 0xF4 ==> s[1] <= 0x8F) then 4
    else 0
  }

  predicate IsUtf8(s: seq<byte>)
    decreases |s|
  {
    s == [] || (CharLen(s) > 0 && IsUtf8(s[CharLen(s)..]))
  }

  lemma CharLenConcat(s: seq<byte>, t: seq<byte>)
    requires CharLen(s) > 0
    ensures CharLen(s + t) == CharLen(s)
  {
    var u := s + t;
    assert u[0] == s[0];
    assert |s| > 1 ==> u[1] == s[1];
    assert |s| > 2 ==> u[2] == s[2];
    assert |s| > 3 ==> u[3] == s[3];
  }

  lemma {:induction false} Utf8Concat(s: seq<byte>, t: seq<byte>)
    requires IsUtf8(s) && IsUtf8(t)
    ensures IsUtf8(s + t)
    decreases |s|
  {
    hide CharLen;
    if s == [] {
      assert s + t == t;
    } else {
      var n := CharLen(s);
      CharLenConcat(s, t);
      Utf8Concat(s[n..], t);
      assert (s + t)[n..] == s[n..] + t;
    }
  }

  lemma {:induction false} AsciiIsUtf8(s: seq<byte>)
    requires forall i :: 0 <= i < |s| ==> s[i] < 0x80
    ensures IsUtf8(s)
  {
    if s != [] {
      AsciiIsUtf8(s[1..]);
    }
  }
}
