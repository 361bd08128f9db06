/** Byte strings and the few library operations on them that the program calls:
    line trimming, decimal conversion, joining and ASCII case mapping.
    A byte string is a Dafny `string` whose characters stand for bytes; no result below
    depends on how many characters there are. */
module Bytes {

  type bytes = string

  datatype Option<+T> = None | Some(value: T)

  /** The largest value of Go's 64-bit `int`. */
  const MAX_INT: int := 0x7FFF_FFFF_FFFF_FFFF

  const CRLF: bytes := "\r\n"

  predicate NoLF(s: bytes) {
    '\n' !in s
  }

  predicate IsEol(c: char) {
    c == '\r' || c == '\n'
  }

  /** A line body that reading the line back leaves untouched. */
  predicate LineSafe(s: bytes) {
    NoLF(s) && (s == [] || s[|s| - 1] != '\r')
  }

  /** `strings.TrimRight(s, "\r\n")`. */
  function TrimEol(s: bytes): (r: bytes)
    ensures r <= s
    ensures r == [] || !IsEol(r[|r| - 1])
    ensures forall i :: |r| <= i < |s| ==> IsEol(s[i])
  {
    if s != [] && IsEol(s[|s| - 1]) then TrimEol(s[..|s| - 1]) else s
  }

  /** Only one prefix of `s` has the three properties of a trimmed line. */
  lemma TrimEolIs(s: bytes, r: bytes)
    requires r <= s
    requires r == [] || !IsEol(r[|r| - 1])
    requires forall i :: |r| <= i < |s| ==> IsEol(s[i])
    ensures TrimEol(s) == r
  {
    var t := TrimEol(s);
    assert t == s[..|t|] && r == s[..|r|];
    assert r != [] ==> s[|r| - 1] == r[|r| - 1];
    assert t != [] ==> s[|t| - 1] == t[|t| - 1];
  }

  lemma TrimEolLineSafe(s: bytes)
    requires NoLF(s)
    ensures LineSafe(TrimEol(s))
    ensures LineSafe(s) <==> TrimEol(s) == s
  {
    if LineSafe(s) {
      TrimEolIs(s, s);
    }
  }

  /** Trimming stops inside `b` when `a` does not end in a line-ending character. */
  lemma TrimEolAppend(a: bytes, b: bytes)
    requires a != [] && !IsEol(a[|a| - 1])
    ensures TrimEol(a + b) == a + TrimEol(b)
  {
    TrimEolIs(a + b, a + TrimEol(b));
  }

  /** Index of the first `c` in `s`, or `|s|` if there is none. */
  function IndexOf(s: bytes, c: char): (i: nat)
    ensures i <= |s|
    ensures i < |s| ==> s[i] == c
    ensures forall j :: 0 <= j < i ==> s[j] != c
  {
    if s == [] || s[0] == c then 0 else 1 + IndexOf(s[1..], c)
  }

  predicate IsDigit(c: char) {
    '0' <= c <= '9'
  }

  predicate AllDigits(s: bytes) {
    forall i :: 0 <= i < |s| ==> IsDigit(s[i])
  }

  function DigitChar(d: nat): (c: char)
    requires d < 10
    ensures IsDigit(c) && c as int - '0' as int == d
  {
    ('0' as int + d) as char
  }

  /** The `%d` rendering of a length. */
  function Decimal(n: nat): (s: bytes)
    ensures s != [] && AllDigits(s)
  {
    if n < 10 then [DigitChar(n)] else Decimal(n / 10) + [DigitChar(n % 10)]
  }

  function DigitsValue(s: bytes): nat
    requires AllDigits(s)
  {
    if s == [] then 0
    else DigitsValue(s[..|s| - 1]) * 10 + (s[|s| - 1] as int - '0' as int)
  }

  /** `strconv.Atoi`: an optional sign, at least one digit, and the value in range. */
  function Atoi(s: bytes): (r: Option<int>)
    ensures r.Some? ==> -MAX_INT - 1 <= r.value <= MAX_INT
  {
    var digits := if s != [] && (s[0] == '-' || s[0] == '+') then s[1..] else s;
    if digits == [] || !AllDigits(digits) then None
    else
      var v: int := DigitsValue(digits);
      var n: int := if s[0] == '-' then -v else v;
      if -MAX_INT - 1 <= n <= MAX_INT then Some(n) else None
  }

  lemma {:induction false} DigitsOfDecimal(n: nat)
    ensures DigitsValue(Decimal(n)) == n
  {
    if n >= 10 {
      DigitsOfDecimal(n / 10);
      var s := Decimal(n);
      assert s[..|s| - 1] == Decimal(n / 10);
    } else {
      var s := Decimal(n);
      assert s[..|s| - 1] == [];
    }
  }

  /** A length written in decimal reads back as itself, up to the range of `int`. */
  lemma AtoiDecimal(n: nat)
    ensures Atoi(Decimal(n)) == if n <= MAX_INT then Some(n) else None
  {
    DigitsOfDecimal(n);
    assert IsDigit(Decimal(n)[0]);
  }

  /** A signed length, up to the range of `int`. */
  lemma AtoiSigned(n: nat)
    ensures Atoi("+" + Decimal(n)) == if n <= MAX_INT then Some(n) else None
    ensures Atoi("-" + Decimal(n)).Some? <==> n <= MAX_INT + 1
    ensures n <= MAX_INT + 1 ==> Atoi("-" + Decimal(n)).value + n == 0
  {
    DigitsOfDecimal(n);
    var s := Decimal(n);
    assert ("+" + s)[1..] == s && ("-" + s)[1..] == s;
  }

  /** Only an optional sign and digits read as a number. */
  lemma AtoiShape(s: bytes)
    requires Atoi(s).Some?
    ensures s != [] && IsDigit(s[|s| - 1]) && (s[0] == '+' || s[0] == '-' || IsDigit(s[0]))
    ensures forall i :: 1 <= i < |s| ==> IsDigit(s[i])
  {
    var digits := if s[0] == '-' || s[0] == '+' then s[1..] else s;
    assert forall i :: 0 <= i < |digits| ==> digits[i] == s[i + |s| - |digits|];
    assert IsDigit(digits[|digits| - 1]);
    forall i | 1 <= i < |s| ensures IsDigit(s[i]) {
      assert IsDigit(digits[i - (|s| - |digits|)]);
    }
  }

  /** `strings.Join`. */
  function Join(parts: seq<bytes>, sep: bytes): bytes {
    if parts == [] then ""
    else if |parts| == 1 then parts[0]
    else parts[0] + sep + Join(parts[1..], sep)
  }

  lemma {:induction false} JoinNoLF(parts: seq<bytes>, sep: bytes)
    requires NoLF(sep)
    ensures NoLF(Join(parts, sep)) <==> forall i :: 0 <= i < |parts| ==> NoLF(parts[i])
  {
    if |parts| > 1 {
      JoinNoLF(parts[1..], sep);
      assert forall i :: 0 < i < |parts| ==> parts[i] == parts[1..][i - 1];
      if NoLF(Join(parts, sep)) {
        forall i | 0 <= i < |parts| ensures NoLF(parts[i]) {
          if i > 0 { assert NoLF(parts[1..][i - 1]); }
        }
      }
    }
  }

  lemma {:induction false} JoinAppend(xs: seq<bytes>, ys: seq<bytes>, sep: bytes)
    requires xs != [] && ys != []
    ensures Join(xs + ys, sep) == Join(xs, sep) + sep + Join(ys, sep)
  {
    if |xs| == 1 {
      assert (xs + ys)[1..] == ys;
    } else {
      JoinAppend(xs[1..], ys, sep);
      assert (xs + ys)[1..] == xs[1..] + ys;
    }
  }

  function UpperChar(c: char): char {
    if 'a' <= c <= 'z' then (c as int - 32) as char else c
  }

  function LowerChar(c: char): char {
    if 'A' <= c <= 'Z' then (c as int + 32) as char else c
  }

  /** `strings.ToUpper` on ASCII text. */
  function Upper(s: bytes): bytes {
    seq(|s|, i requires 0 <= i < |s| => UpperChar(s[i]))
  }

  /** `strings.ToLower` on ASCII text. */
  function Lower(s: bytes): bytes {
    seq(|s|, i requires 0 <= i < |s| => LowerChar(s[i]))
  }

  /** Equal, or the upper and lower case of one ASCII letter. */
  predicate SameLetter(a: char, b: char) {
    || a == b
    || ('A' <= a <= 'Z' && b as int == a as int + 32)
    || ('A' <= b <= 'Z' && a as int == b as int + 32)
  }

  /** Equal up to the case of ASCII letters. */
  predicate EqualFold(a: bytes, b: bytes) {
    |a| == |b| && forall i :: 0 <= i < |a| ==> SameLetter(a[i], b[i])
  }

  /** Both case mappings identify exactly the texts that are equal up to case. */
  lemma FoldingExactly(a: bytes, b: bytes)
    ensures Lower(a) == Lower(b) <==> EqualFold(a, b)
    ensures Upper(a) == Upper(b) <==> EqualFold(a, b)
  {
    assert |Lower(a)| == |a| == |Upper(a)| && |Lower(b)| == |b| == |Upper(b)|;
    if |a| == |b| {
      forall i | 0 <= i < |a|
        ensures Lower(a)[i] == Lower(b)[i] <==> SameLetter(a[i], b[i])
        ensures Upper(a)[i] == Upper(b)[i] <==> SameLetter(a[i], b[i])
      {
        FoldingOne(a[i], b[i]);
      }
    }
  }

  lemma FoldingOne(a: char, b: char)
    ensures LowerChar(a) == LowerChar(b) <==> SameLetter(a, b)
    ensures UpperChar(a) == UpperChar(b) <==> SameLetter(a, b)
  {
  }

  lemma CaseKeepsLF(s: bytes)
    ensures NoLF(Lower(s)) <==> NoLF(s)
    ensures NoLF(Upper(s)) <==> NoLF(s)
  {
    forall i | 0 <= i < |s|
      ensures Lower(s)[i] == '\n' <==> s[i] == '\n'
      ensures Upper(s)[i] == '\n' <==> s[i] == '\n'
    {
    }
    if !NoLF(s) {
      var i :| 0 <= i < |s| && s[i] == '\n';
      assert Lower(s)[i] == '\n' && Upper(s)[i] == '\n';
    }
  }
}
