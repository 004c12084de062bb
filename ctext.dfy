/**
 The C string functions the protocol engine leans on, stated over sequences of
 characters: snprintf's truncation, strstr, the text a NUL-terminated buffer
 holds, and the decimal rendering of "%d".
 */
module CText {
  import opened Wrappers

  /** The characters of a C string: a NUL can only end it, never sit inside it. */
  type CString = s: seq<char> | '\0' !in s

  function Min(a: int, b: int): int
  {
    if a <= b then a else b
  }

  /** What snprintf leaves in a destination buffer of limit+1 bytes: the first
      `limit` characters of the formatted text, the rest silently dropped. */
  function Truncate(s: seq<char>, limit: nat): (r: seq<char>)
    ensures r <= s
    ensures |r| == Min(|s|, limit)
  {
    if |s| <= limit then s else s[..limit]
  }

  lemma TruncateKeepsCString(s: CString, limit: nat)
    ensures '\0' !in Truncate(s, limit)
  {
  }

  /** `p` occurs in `s` starting at index `i`. */
  predicate OccursAt(s: seq<char>, p: seq<char>, i: int)
  {
    0 <= i && i + |p| <= |s| && s[i..i + |p|] == p
  }

  /** strstr started at index `from`: the leftmost occurrence at or after it. */
  function FindFrom(s: seq<char>, p: seq<char>, from: nat): (r: Option<nat>)
    requires from <= |s|
    ensures r.Some? ==> from <= r.value && OccursAt(s, p, r.value)
    ensures r.Some? ==> forall j :: from <= j < r.value ==> !OccursAt(s, p, j)
    ensures r.None? ==> forall j :: from <= j ==> !OccursAt(s, p, j)
    decreases |s| - from
  {
    if from + |p| > |s| then None
    else if s[from..from + |p|] == p then Some(from)
    else if from == |s| then None
    else FindFrom(s, p, from + 1)
  }

  /** strstr: the leftmost occurrence of `p` in `s`, if any. */
  function Find(s: seq<char>, p: seq<char>): (r: Option<nat>)
    ensures r.Some? ==> OccursAt(s, p, r.value)
    ensures r.Some? ==> forall j :: 0 <= j < r.value ==> !OccursAt(s, p, j)
    ensures r.None? ==> forall j :: !OccursAt(s, p, j)
  {
    FindFrom(s, p, 0)
  }

  /** strstr(s, p) != NULL */
  function Contains(s: seq<char>, p: seq<char>): (b: bool)
    ensures b <==> exists i :: OccursAt(s, p, i)
  {
    Find(s, p).Some?
  }

  /** The C string a NUL-terminated buffer holds: everything before its first NUL. */
  function CStr(s: seq<char>): (r: CString)
    ensures r <= s
    ensures |r| == |s| || s[|r|] == '\0'
  {
    if s == [] || s[0] == '\0' then []
    else [s[0]] + CStr(s[1..])
  }

  /** strstr on a buffer stops at the terminator written after the text. */
  lemma {:induction false} CStrStopsAtNul(t: seq<char>, rest: seq<char>)
    ensures CStr(t + ['\0'] + rest) == CStr(t)
  {
    if t != [] {
      assert (t + ['\0'] + rest)[1..] == t[1..] + ['\0'] + rest;
      CStrStopsAtNul(t[1..], rest);
    }
  }

  function DigitChar(d: nat): (c: char)
    requires d < 10
    ensures '0' <= c <= '9'
  {
    ['0', '1', '2', '3', '4', '5', '6', '7', '8', '9'][d]
  }

  function DigitValue(c: char): nat
  {
    if '0' <= c <= '9' then (c - '0') as nat else 0
  }

  lemma DigitRoundTrip(d: nat)
    requires d < 10
    ensures DigitValue(DigitChar(d)) == d
  {
  }

  /** printf's "%d" for a non-negative number: decimal digits, no leading zero. */
  function Decimal(n: nat): (r: CString)
    ensures 1 <= |r|
    ensures forall i :: 0 <= i < |r| ==> '0' <= r[i] <= '9'
    ensures r[0] == '0' ==> n == 0
  {
    if n < 10 then [DigitChar(n)]
    else Decimal(n / 10) + [DigitChar(n % 10)]
  }

  /** printf's "%d" for any int: a minus sign before the digits of a negative. */
  function SignedDecimal(n: int): (r: CString)
    ensures 1 <= |r| && (n < 0 <==> r[0] == '-')
    ensures n >= 0 ==> r == Decimal(n)
  {
    if n < 0 then "-" + Decimal(-n) else Decimal(n)
  }

  /** The value a string of decimal digits denotes. */
  function ParseDecimal(s: seq<char>): nat
  {
    if s == [] then 0
    else ParseDecimal(s[..|s| - 1]) * 10 + DigitValue(s[|s| - 1])
  }

  lemma {:induction false} DecimalRoundTrip(n: nat)
    ensures ParseDecimal(Decimal(n)) == n
  {
    if n < 10 {
      DigitRoundTrip(n);
      assert [DigitChar(n)][..0] == [];
    } else {
      var s := Decimal(n);
      assert s[..|s| - 1] == Decimal(n / 10);
      DecimalRoundTrip(n / 10);
      DigitRoundTrip(n % 10);
    }
  }
}
