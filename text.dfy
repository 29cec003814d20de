/** The handful of Python string operations the bot relies on: `str.strip()`,
    `str.lower()`, `int()`/`str()` on decimal numbers, `str.split(sep)` and
    `sep.join(...)`. */
module Text {
  import opened Base

  // ---------------------------------------------------------------- strip

  /** The characters `str.isspace()` accepts. */
  predicate IsSpace(c: char)
  {
    || c == ' ' || '\t' <= c <= '\r' || '\U{1c}' <= c <= '\U{1f}'
    || c == '\U{85}' || c == '\U{a0}' || c == '\U{1680}'
    || '\U{2000}' <= c <= '\U{200a}' || c == '\U{2028}' || c == '\U{2029}'
    || c == '\U{202f}' || c == '\U{205f}' || c == '\U{3000}'
  }

  /** The index of the first character at or after `i` that is not white
      space, or `|s|`. */
  function SkipSpaces(s: string, i: nat): (k: nat)
    requires i <= |s|
    ensures i <= k <= |s|
    ensures forall j :: i <= j < k ==> IsSpace(s[j])
    ensures k < |s| ==> !IsSpace(s[k])
    decreases |s| - i
  {
    if i < |s| && IsSpace(s[i]) then SkipSpaces(s, i + 1) else i
  }

  /** The end of `s[lo..hi]` once the white space at its end is dropped. */
  function TrimEnd(s: string, lo: nat, hi: nat): (k: nat)
    requires lo <= hi <= |s|
    ensures lo <= k <= hi
    ensures forall j :: k <= j < hi ==> IsSpace(s[j])
    ensures k > lo ==> !IsSpace(s[k - 1])
    decreases hi
  {
    if hi > lo && IsSpace(s[hi - 1]) then TrimEnd(s, lo, hi - 1) else hi
  }

  /** `s.strip()`: the slice of `s` left once the white space at both ends is
      dropped; it neither starts nor ends with white space. */
  function Strip(s: string): (r: string)
    ensures r == [] || (!IsSpace(r[0]) && !IsSpace(r[|r| - 1]))
    ensures var k := SkipSpaces(s, 0);
      && k + |r| <= |s| && r == s[k..k + |r|]
      && (forall i :: 0 <= i < k ==> IsSpace(s[i]))
      && (forall i :: k + |r| <= i < |s| ==> IsSpace(s[i]))
  {
    var k := SkipSpaces(s, 0);
    s[k..TrimEnd(s, k, |s|)]
  }

  /** A string of digits is its own strip. */
  lemma StripDigits(s: string)
    requires forall i :: 0 <= i < |s| ==> IsDigit(s[i])
    ensures Strip(s) == s
  {
    assert SkipSpaces(s, 0) == 0;
    assert TrimEnd(s, 0, |s|) == |s|;
    assert s[0..|s|] == s;
  }

  /** Stripping twice is stripping once. */
  lemma StripIdempotent(s: string)
    ensures Strip(Strip(s)) == Strip(s)
  {
    var r := Strip(s);
    assert SkipSpaces(r, 0) == 0;
    assert TrimEnd(r, 0, |r|) == |r|;
    assert r[0..|r|] == r;
  }

  // ---------------------------------------------------------------- lower

  /** `str.lower()` on one character: Latin A-Z and the Cyrillic capitals. */
  function LowerChar(c: char): (r: char)
    ensures 'A' <= c <= 'Z' ==> 'a' <= r <= 'z'
  {
    if 'A' <= c <= 'Z' then (c as int + 32) as char
    else if '\U{410}' <= c <= '\U{42f}' then (c as int + 32) as char  // А..Я
    else if '\U{400}' <= c <= '\U{40f}' then (c as int + 80) as char  // Ѐ..Џ (Ё among them)
    else c
  }

  function Lower(s: string): (r: string)
    ensures |r| == |s|
    ensures forall i :: 0 <= i < |s| ==> r[i] == LowerChar(s[i])
  {
    seq(|s|, i requires 0 <= i < |s| => LowerChar(s[i]))
  }

  /** Lowering never produces a capital, so lowering twice is lowering once. */
  lemma LowerIdempotent(s: string)
    ensures Lower(Lower(s)) == Lower(s)
  {
    forall i | 0 <= i < |s| ensures LowerChar(LowerChar(s[i])) == LowerChar(s[i]) {
      var c := s[i];
      if '\U{400}' <= c <= '\U{40f}' {
        assert '\U{450}' <= LowerChar(c) <= '\U{45f}';
      }
    }
  }

  // ------------------------------------------------------------- decimals

  predicate IsDigit(c: char) { '0' <= c <= '9' }

  function DigitChar(d: nat): (c: char)
    requires d < 10
    ensures IsDigit(c) && (c as int) - ('0' as int) == d
  {
    ('0' as int + d) as char
  }

  /** `str(n)` for a natural number: its decimal digits, no leading zero. */
  function ShowNat(n: nat): (s: string)
    ensures |s| >= 1 && forall i :: 0 <= i < |s| ==> IsDigit(s[i])
    ensures n > 0 ==> s[0] != '0'
  {
    if n < 10 then [DigitChar(n)] else ShowNat(n / 10) + [DigitChar(n % 10)]
  }

  /** Value of a string of digits, most significant first. */
  function DigitsValue(s: string): nat
    requires forall i :: 0 <= i < |s| ==> IsDigit(s[i])
  {
    if s == [] then 0
    else
      var last := s[|s| - 1];
      assert IsDigit(last);
      10 * DigitsValue(s[..|s| - 1]) + ((last as int) - ('0' as int))
  }

  /** `int(s)` on a string: `None` where Python raises `ValueError`. Only plain
      digit strings are accepted (see README for what this leaves out). */
  function ParseNat(s: string): (r: Option<nat>)
    ensures r.Some? <==> |s| >= 1 && forall i :: 0 <= i < |s| ==> IsDigit(s[i])
  {
    if |s| >= 1 && forall i :: 0 <= i < |s| ==> IsDigit(s[i]) then Some(DigitsValue(s)) else None
  }

  /** `int(str(n)) == n`. */
  lemma {:induction false} ParseShowNat(n: nat)
    ensures ParseNat(ShowNat(n)) == Some(n)
  {
    var s := ShowNat(n);
    if n < 10 {
      assert s[..0] == [];
    } else {
      ParseShowNat(n / 10);
      assert s[..|s| - 1] == ShowNat(n / 10);
      assert DigitsValue(s) == 10 * (n / 10) + n % 10;
    }
  }

  /** Distinct numbers have distinct decimal forms. */
  lemma ShowNatInjective(a: nat, b: nat)
    requires ShowNat(a) == ShowNat(b)
    ensures a == b
  {
    ParseShowNat(a);
    ParseShowNat(b);
  }

  /** `int(s)` on a string: white space around the number and one leading
      sign are accepted; `None` where Python raises `ValueError`. */
  function ParseInt(s: string): (r: Option<int>)
    ensures ParseNat(s).Some? ==> r == Some(ParseNat(s).value as int)
  {
    var b := Strip(s);
    assert ParseNat(s).Some? ==> b == s by {
      if ParseNat(s).Some? { StripDigits(s); }
    }
    ParseIntStripped(b)
  }

  /** `int()` once the white space around the text is gone. */
  function ParseIntStripped(b: string): Option<int>
  {
    if |b| >= 1 && (b[0] == '-' || b[0] == '+') then
      match ParseNat(b[1..])
      case None => None
      case Some(n) =>
        var v: int := if b[0] == '-' then -(n as int) else n as int;
        Some(v)
    else
      match ParseNat(b)
      case None => None
      case Some(n) => Some(n as int)
  }

  /** `int(str(n)) == n`, through the full `int()`. */
  lemma ParseIntShowNat(n: nat)
    ensures ParseInt(ShowNat(n)) == Some(n)
  {
    ParseShowNat(n);
  }

  // ------------------------------------------------------- split and join

  /** `s.split(sep)`: always at least one part, no part contains `sep`. */
  function Split(s: string, sep: char): (parts: seq<string>)
    ensures |parts| >= 1
    ensures forall k :: 0 <= k < |parts| ==> sep !in parts[k]
    decreases |s|
  {
    match FindFirst(s, c => c == sep)
    case None => [s]
    case Some(i) => [s[..i]] + Split(s[i + 1..], sep)
  }

  /** `sep.join(parts)`. */
  function Join(parts: seq<string>, sep: char): string
  {
    if parts == [] then []
    else if |parts| == 1 then parts[0]
    else parts[0] + [sep] + Join(parts[1..], sep)
  }

  /** Splitting a joined list gives back the list when no part contains the separator. */
  lemma {:induction false} SplitJoin(parts: seq<string>, sep: char)
    requires |parts| >= 1
    requires forall k :: 0 <= k < |parts| ==> sep !in parts[k]
    ensures Split(Join(parts, sep), sep) == parts
  {
    var j := Join(parts, sep);
    if |parts| == 1 {
      assert FindFirst(j, c => c == sep).None?;
    } else {
      var p := parts[0];
      var rest := Join(parts[1..], sep);
      assert j == p + [sep] + rest;
      assert j[|p|] == sep;
      assert forall i :: 0 <= i < |p| ==> j[i] == p[i] && j[i] != sep;
      assert FindFirst(j, c => c == sep) == Some(|p|);
      assert j[..|p|] == p;
      assert j[|p| + 1..] == rest;
      SplitJoin(parts[1..], sep);
    }
  }
}
