/** What the codec promises: parsing inverts encoding for exactly the well-formed values,
    more bytes never change what was already parsed, encodings form a prefix code, and the
    display form survives exactly where it can. */
module RespLaws {
  import opened Bytes
  import opened Sequences
  import opened Resp

  // ---- lines ----

  lemma ReadLineStable(p: bytes, q: bytes)
    requires ReadLine(p).Got?
    ensures ReadLine(p + q) == Got(ReadLine(p).value, ReadLine(p).rest + q)
  {
    var i := IndexOf(p, '\n');
    assert IndexOf(p + q, '\n') == i by {
      assert forall j :: 0 <= j <= i ==> (p + q)[j] == p[j];
    }
    assert (p + q)[..i + 1] == p[..i + 1];
    assert (p + q)[i + 1..] == p[i + 1..] + q;
  }

  /** A written line reads back with its trailing CRs trimmed. */
  lemma ReadLineOf(line: bytes, q: bytes)
    requires NoLF(line)
    ensures ReadLine(line + CRLF + q) == Got(TrimEol(line), q)
  {
    var s := line + CRLF + q;
    var i := |line| + 1;
    assert s[i] == '\n' && forall j :: 0 <= j < i ==> s[j] != '\n';
    assert IndexOf(s, '\n') == i;
    assert s[..i + 1] == line + CRLF;
    assert s[i + 1..] == q;
    TrimEolIs(line + CRLF, TrimEol(line));
  }

  /** A line that was read has no LF and no trailing CR, and took at least its length and one byte. */
  lemma ReadLineSafe(s: bytes)
    requires ReadLine(s).Got?
    ensures LineSafe(ReadLine(s).value)
  {
    var i := IndexOf(s, '\n');
    var line := TrimEol(s[..i + 1]);
    assert |line| <= i && forall j :: 0 <= j < |line| ==> line[j] == s[j];
  }

  // ---- one step of the parser, given its first line ----

  lemma ParseText(s: bytes, line: bytes, rest: bytes)
    requires ReadLine(s) == Got(line, rest) && line != []
    ensures line[0] == '+' ==> ParseValue(s) == Got(Simple(line[1..]), rest)
    ensures line[0] == '-' ==> ParseValue(s) == Got(Error(line[1..]), rest)
    ensures line[0] == ':' ==> ParseValue(s) == Got(Integer(line[1..]), rest)
  {
  }

  lemma ParseBulk(s: bytes, line: bytes, rest: bytes, n: int)
    requires ReadLine(s) == Got(line, rest) && line != [] && line[0] == '$' && Atoi(line[1..]) == Some(n)
    ensures n < 0 ==> ParseValue(s) == Got(NullBulk, rest)
    ensures 0 <= n && n + 2 <= |rest| ==> ParseValue(s) == Got(Bulk(rest[..n]), rest[n + 2..])
    ensures 0 <= n && |rest| < n + 2 ==> ParseValue(s).Failed?
  {
  }

  lemma ParseArray(s: bytes, line: bytes, rest: bytes, n: int)
    requires ReadLine(s) == Got(line, rest) && line != [] && line[0] == '*' && Atoi(line[1..]) == Some(n)
    ensures n < 0 ==> ParseValue(s) == Got(NullArray, rest)
    ensures 0 <= n ==>
      match ParseItems(rest, n)
      case Got(items, left) => ParseValue(s) == Got(Array(items), left)
      case Failed(e, left) => ParseValue(s) == Failed(e, left)
  {
    hide ReadLine;
    hide Atoi;
    hide ParseItems;
  }

  /** A successful parse began with one of the five kind bytes and a readable length. */
  lemma ParsedFrom(s: bytes)
    requires ParseValue(s).Got?
    ensures ReadLine(s).Got? && ReadLine(s).value != []
    ensures var line := ReadLine(s).value;
      || line[0] in {'+', '-', ':'}
      || (line[0] in {'$', '*'} && Atoi(line[1..]).Some?)
  {
  }

  // ---- what the parser produces ----

  lemma {:induction false} ParsedIsWellFormed(s: bytes)
    requires ParseValue(s).Got?
    ensures WellFormed(ParseValue(s).value)
    decreases |s|, 0
  {
    ParsedFrom(s);
    var line, rest := ReadLine(s).value, ReadLine(s).rest;
    ReadLineSafe(s);
    ParseText(s, line, rest);
    hide ParseValue;
    hide ReadLine;
    assert LineSafe(line[1..]);
    if line[0] in {'$', '*'} {
      var n := Atoi(line[1..]).value;
      if line[0] == '$' {
        ParseBulk(s, line, rest, n);
      } else {
        ParseArray(s, line, rest, n);
        if n >= 0 {
          ParsedItemsAreWellFormed(rest, n);
        }
      }
    }
  }

  lemma {:induction false} ParsedItemsAreWellFormed(s: bytes, n: nat)
    requires ParseItems(s, n).Got?
    ensures |ParseItems(s, n).value| == n && AllWellFormed(ParseItems(s, n).value)
    decreases |s|, 1
  {
    hide ParseValue;
    if n > 0 {
      ParsedIsWellFormed(s);
      ParsedItemsAreWellFormed(ParseValue(s).rest, n - 1);
    }
  }

  /** Each value node takes at least two bytes, nested nodes included. */
  lemma {:induction false} ParsedSize(s: bytes)
    requires ParseValue(s).Got?
    ensures 2 * Nodes(ParseValue(s).value) + |ParseValue(s).rest| <= |s|
    decreases |s|, 0
  {
    ParsedFrom(s);
    var line, rest := ReadLine(s).value, ReadLine(s).rest;
    ParseText(s, line, rest);
    hide ParseValue;
    hide ReadLine;
    if line[0] in {'$', '*'} {
      var n := Atoi(line[1..]).value;
      if line[0] == '$' {
        ParseBulk(s, line, rest, n);
      } else {
        ParseArray(s, line, rest, n);
        if n >= 0 {
          ParsedItemsSize(rest, n);
        }
      }
    }
  }

  lemma {:induction false} ParsedItemsSize(s: bytes, n: nat)
    requires ParseItems(s, n).Got?
    ensures 2 * NodesOf(ParseItems(s, n).value) + |ParseItems(s, n).rest| <= |s|
    decreases |s|, 1
  {
    hide ParseValue;
    if n > 0 {
      var v, rest := ParseValue(s).value, ParseValue(s).rest;
      ParsedSize(s);
      ParsedItemsSize(rest, n - 1);
      assert ([v] + ParseItems(rest, n - 1).value)[1..] == ParseItems(rest, n - 1).value;
    }
  }

  /** A whole capture: every value is well-formed, the values and the unread rest fit in the input
      at two bytes a node, and the rest starts no complete value. */
  lemma {:induction false} StreamIsMaximal(s: bytes)
    ensures var d := ParseStream(s);
      && AllWellFormed(d.values)
      && 2 * NodesOf(d.values) + |d.rest| <= |s|
      && ParseValue(d.rest).Failed?
    decreases |s|
  {
    hide ParseValue;
    if ParseValue(s).Got? {
      var v, rest := ParseValue(s).value, ParseValue(s).rest;
      ParsedIsWellFormed(s);
      ParsedSize(s);
      StreamIsMaximal(rest);
      assert ([v] + ParseStream(rest).values)[1..] == ParseStream(rest).values;
    }
  }

  // ---- more bytes never change what was parsed ----

  lemma ParseBulkStable(p: bytes, q: bytes, line: bytes, rest: bytes)
    requires ReadLine(p) == Got(line, rest) && ReadLine(p + q) == Got(line, rest + q)
    requires line != [] && line[0] == '$' && Atoi(line[1..]).Some? && ParseValue(p).Got?
    ensures ParseValue(p + q) == Got(ParseValue(p).value, ParseValue(p).rest + q)
  {
    hide ParseValue;
    hide ReadLine;
    hide Atoi;
    var n := Atoi(line[1..]).value;
    ParseBulk(p, line, rest, n);
    ParseBulk(p + q, line, rest + q, n);
    if n >= 0 {
      assert (rest + q)[..n] == rest[..n];
      assert (rest + q)[n + 2..] == rest[n + 2..] + q;
    }
  }

  lemma {:induction false} ParseStable(p: bytes, q: bytes)
    requires ParseValue(p).Got?
    ensures ParseValue(p + q) == Got(ParseValue(p).value, ParseValue(p).rest + q)
    decreases |p|, 0
  {
    hide ParseValue;
    hide ReadLine;
    hide Atoi;
    ParsedFrom(p);
    ReadLineStable(p, q);
    var line, rest := ReadLine(p).value, ReadLine(p).rest;
    if line[0] == '$' {
      ParseBulkStable(p, q, line, rest);
    } else if line[0] == '*' {
      var n := Atoi(line[1..]).value;
      ParseArray(p, line, rest, n);
      ParseArray(p + q, line, rest + q, n);
      if n >= 0 {
        ParseItemsStable(rest, q, n);
      }
    } else {
      ParseText(p, line, rest);
      ParseText(p + q, line, rest + q);
    }
  }

  lemma {:induction false} ParseItemsStable(p: bytes, q: bytes, n: nat)
    requires ParseItems(p, n).Got?
    ensures ParseItems(p + q, n) == Got(ParseItems(p, n).value, ParseItems(p, n).rest + q)
    decreases |p|, 1
  {
    hide ParseValue;
    if n > 0 {
      ParseStable(p, q);
      ParseItemsStable(ParseValue(p).rest, q, n - 1);
    }
  }

  /** Cutting a capture short only loses values from its end. */
  lemma {:induction false} StreamPrefix(p: bytes, q: bytes)
    ensures ParseStream(p).values <= ParseStream(p + q).values
    decreases |p|
  {
    hide ParseValue;
    if ParseValue(p).Got? {
      ParseStable(p, q);
      StreamPrefix(ParseValue(p).rest, q);
    }
  }

  // ---- parsing inverts encoding ----

  lemma LineReadsBack(kind: bytes, body: bytes, q: bytes)
    requires |kind| == 1 && !IsEol(kind[0]) && LineSafe(body)
    ensures ReadLine(kind + body + CRLF + q) == Got(kind + body, q)
    ensures (kind + body)[0] == kind[0] && (kind + body)[1..] == body
  {
    ReadLineOf(kind + body, q);
    TrimEolIs(kind + body, kind + body);
  }

  lemma DecimalLineSafe(n: nat)
    ensures LineSafe(Decimal(n))
  {
    var s := Decimal(n);
    assert forall i :: 0 <= i < |s| ==> IsDigit(s[i]);
  }

  lemma AtoiMinusOne()
    ensures Atoi("-1") == Some(-1)
  {
    assert "-1"[1..] == "1";
    assert "1"[..0] == "";
    assert DigitsValue("1") == 1;
  }

  lemma LengthReadsBack(kind: bytes, n: nat, tail: bytes)
    requires |kind| == 1 && !IsEol(kind[0])
    ensures var line := kind + Decimal(n);
      && ReadLine(line + CRLF + tail) == Got(line, tail)
      && line[0] == kind[0]
      && Atoi(line[1..]) == if n <= MAX_INT then Some(n) else None
  {
    DecimalLineSafe(n);
    LineReadsBack(kind, Decimal(n), tail);
    AtoiDecimal(n);
  }

  lemma DecodeText(kind: bytes, body: bytes, q: bytes)
    requires kind in {"+", "-", ":"} && LineSafe(body)
    ensures ParseValue(kind + body + CRLF + q)
         == Got(if kind == "+" then Simple(body) else if kind == "-" then Error(body) else Integer(body), q)
  {
    hide ParseValue;
    hide ReadLine;
    LineReadsBack(kind, body, q);
    ParseText(kind + body + CRLF + q, kind + body, q);
  }

  lemma DecodeNull(kind: bytes, q: bytes)
    requires kind in {"$", "*"}
    ensures ParseValue(kind + "-1" + CRLF + q) == Got(if kind == "$" then NullBulk else NullArray, q)
  {
    hide ParseValue;
    hide ReadLine;
    LineReadsBack(kind, "-1", q);
    AtoiMinusOne();
    var s := kind + "-1" + CRLF + q;
    if kind == "$" {
      ParseBulk(s, kind + "-1", q, -1);
    } else {
      ParseArray(s, kind + "-1", q, -1);
    }
  }

  lemma DecodeBulk(text: bytes, q: bytes)
    requires |text| <= MAX_INT
    ensures ParseValue(EncodeBulkString(text) + q) == Got(Bulk(text), q)
  {
    hide ParseValue;
    hide ReadLine;
    var tail := text + CRLF + q;
    var line := "$" + Decimal(|text|);
    assert EncodeBulkString(text) + q == line + CRLF + tail;
    LengthReadsBack("$", |text|, tail);
    ParseBulk(line + CRLF + tail, line, tail, |text|);
    assert tail[..|text|] == text && tail[|text| + 2..] == q;
  }

  lemma DecodeArray(items: seq<Value>, q: bytes)
    requires |items| <= MAX_INT
    requires ParseItems(EncodeAll(items) + q, |items|) == Got(items, q)
    ensures ParseValue(Encode(Array(items)) + q) == Got(Array(items), q)
  {
    hide ParseValue;
    hide ReadLine;
    hide ParseItems;
    hide EncodeAll;
    var n, tail := |items|, EncodeAll(items) + q;
    var line := "*" + Decimal(n);
    LengthReadsBack("*", n, tail);
    ParseArray(line + CRLF + tail, line, tail, n);
    Associative(line + CRLF, EncodeAll(items), q);
  }

  lemma {:induction false} DecodeEncode(v: Value, q: bytes)
    requires WellFormed(v)
    ensures ParseValue(Encode(v) + q) == Got(v, q)
    decreases v, 0
  {
    hide ParseValue;
    match v
    case Simple(s) =>
      DecodeText("+", s, q);
    case Error(s) =>
      DecodeText("-", s, q);
    case Integer(s) =>
      DecodeText(":", s, q);
    case NullBulk =>
      DecodeNull("$", q);
      assert "$" + "-1" == "$-1";
    case NullArray =>
      DecodeNull("*", q);
      assert "*" + "-1" == "*-1";
    case Bulk(s) =>
      DecodeBulk(s, q);
    case Array(items) =>
      DecodeEncodeAll(items, q);
      DecodeArray(items, q);
  }

  lemma {:induction false} DecodeEncodeAll(vs: seq<Value>, q: bytes)
    requires AllWellFormed(vs)
    ensures ParseItems(EncodeAll(vs) + q, |vs|) == Got(vs, q)
    decreases vs, 1
  {
    hide ParseValue;
    hide Encode;
    if vs == [] {
      assert EncodeAll(vs) + q == q;
    } else {
      Associative(Encode(vs[0]), EncodeAll(vs[1..]), q);
      DecodeEncode(vs[0], EncodeAll(vs[1..]) + q);
      DecodeEncodeAll(vs[1..], q);
      assert vs == [vs[0]] + vs[1..];
    }
  }

  /** The round trip, exactly: an encoding reads back as its value if and only if the value is
      well-formed. */
  lemma RoundTripExactly(v: Value, q: bytes)
    ensures ParseValue(Encode(v) + q) == Got(v, q) <==> WellFormed(v)
  {
    if WellFormed(v) {
      DecodeEncode(v, q);
    } else if ParseValue(Encode(v) + q) == Got(v, q) {
      ParsedIsWellFormed(Encode(v) + q);
      assert false;
    }
  }

  /** No encoding is a proper prefix of another one followed by anything: a concatenation splits
      into encodings in one way only. */
  lemma PrefixCode(v: Value, w: Value, a: bytes, b: bytes)
    requires WellFormed(v) && WellFormed(w)
    requires Encode(v) + a == Encode(w) + b
    ensures v == w && a == b
  {
    hide ParseValue;
    DecodeEncode(v, a);
    DecodeEncode(w, b);
  }

  /** A strict prefix of one encoding holds no complete value. */
  lemma CutEncodingFails(v: Value, cut: bytes)
    requires WellFormed(v) && cut < Encode(v)
    ensures ParseValue(cut).Failed?
  {
    hide ParseValue;
    if ParseValue(cut).Got? {
      var lost := Encode(v)[|cut|..];
      assert cut + lost == Encode(v) + [];
      ParseStable(cut, lost);
      DecodeEncode(v, []);
    }
  }

  /** Whether an encoding cut to `cut` ends inside the body of a bulk string: past its header line
      by at least one byte, and short of its last. */
  predicate CutInBody(v: Value, cut: bytes)
    decreases v, 0
  {
    match v
    case Bulk(s) => "$" + Decimal(|s|) + CRLF < cut
    case Array(items) =>
      var header := "*" + Decimal(|items|) + CRLF;
      header <= cut && CutInBodyOf(items, cut[|header|..])
    case _ => false
  }

  /** The same of a row of encodings: the one that the cut ends in decides. */
  predicate CutInBodyOf(vs: seq<Value>, cut: bytes)
    decreases vs, 1
  {
    && vs != []
    && var first := Encode(vs[0]);
       if first <= cut then CutInBodyOf(vs[1..], cut[|first|..]) else CutInBody(vs[0], cut)
  }

  function CutError(inBody: bool): ReadError {
    if inBody then UnexpectedEof else Eof
  }

  /** A value cut short anywhere reads as an end of file, never as malformed; as an unexpected one
      exactly when the cut is inside the body of a bulk string. */
  lemma {:induction false} CutErrorExactly(v: Value, cut: bytes)
    requires WellFormed(v) && cut < Encode(v)
    ensures ParseValue(cut) == Failed(CutError(CutInBody(v, cut)), [])
    decreases v, 0
  {
    hide ParseValue;
    match v
    case Bulk(s) =>
      CutBulk(s, cut);
    case Array(items) =>
      var header := "*" + Decimal(|items|) + CRLF;
      if header <= cut {
        Resume(header, EncodeAll(items), cut);
        CutItemsErrorExactly(items, cut[|header|..]);
        CutArray(items, header, cut, CutError(CutInBody(v, cut)));
      } else {
        CutHeader("*", |items|, EncodeAll(items), cut);
      }
    case Simple(s) =>
      CutLine(Encode(v), cut);
    case Error(s) =>
      CutLine(Encode(v), cut);
    case Integer(s) =>
      CutLine(Encode(v), cut);
    case NullBulk =>
      CutLine(Encode(v), cut);
    case NullArray =>
      CutLine(Encode(v), cut);
  }

  lemma {:induction false} CutItemsErrorExactly(vs: seq<Value>, cut: bytes)
    requires AllWellFormed(vs) && cut < EncodeAll(vs)
    ensures ParseItems(cut, |vs|) == Failed(CutError(CutInBodyOf(vs, cut)), [])
    decreases vs, 1
  {
    hide ParseValue;
    hide Encode;
    hide CutInBody;
    var first, more := Encode(vs[0]), EncodeAll(vs[1..]);
    if first <= cut {
      Resume(first, more, cut);
      DecodeEncode(vs[0], cut[|first|..]);
      CutItemsErrorExactly(vs[1..], cut[|first|..]);
    } else {
      assert (first + more)[..|first|] == first;
      CutErrorExactly(vs[0], cut);
    }
  }

  lemma CutBulk(s: bytes, cut: bytes)
    requires |s| <= MAX_INT && cut < EncodeBulkString(s)
    ensures ParseValue(cut) == Failed(CutError("$" + Decimal(|s|) + CRLF < cut), [])
  {
    hide ParseValue;
    var line := "$" + Decimal(|s|);
    var header := line + CRLF;
    assert EncodeBulkString(s) == header + (s + CRLF);
    if header <= cut {
      Resume(header, s + CRLF, cut);
      var left := cut[|header|..];
      LengthReadsBack("$", |s|, left);
      ShortBulk(cut, line, left, |s|);
    } else {
      CutHeader("$", |s|, s + CRLF, cut);
    }
  }

  lemma CutArray(items: seq<Value>, header: bytes, cut: bytes, e: ReadError)
    requires |items| <= MAX_INT && header == "*" + Decimal(|items|) + CRLF && header <= cut
    requires ParseItems(cut[|header|..], |items|) == Failed(e, [])
    ensures ParseValue(cut) == Failed(e, [])
  {
    hide ParseValue;
    hide ParseItems;
    var line, left := "*" + Decimal(|items|), cut[|header|..];
    LengthReadsBack("*", |items|, left);
    assert cut == line + CRLF + left;
    ParseArray(cut, line, left, |items|);
  }

  lemma Resume(a: bytes, b: bytes, cut: bytes)
    requires a <= cut < a + b
    ensures cut == a + cut[|a|..] && cut[|a|..] < b
  {
  }

  /** Without its last LF a one-line encoding has no line to read. */
  lemma CutLine(line: bytes, cut: bytes)
    requires cut < line && NoLF(line[..|line| - 1])
    ensures ParseValue(cut) == Failed(Eof, "")
  {
    assert cut == line[..|line| - 1][..|cut|];
  }

  /** Cut inside the header line there is no line. */
  lemma CutHeader(kind: bytes, n: nat, tail: bytes, cut: bytes)
    requires kind in {"$", "*"} && n <= MAX_INT
    requires cut < kind + Decimal(n) + CRLF + tail && !(kind + Decimal(n) + CRLF <= cut)
    ensures ParseValue(cut) == Failed(Eof, [])
  {
    var header := kind + Decimal(n) + CRLF;
    DecimalLineSafe(n);
    assert (header + tail)[..|header|] == header;
    assert cut < header;
    CutLine(header, cut);
  }

  lemma ShortBulk(s: bytes, line: bytes, rest: bytes, n: nat)
    requires ReadLine(s) == Got(line, rest) && line != [] && line[0] == '$' && Atoi(line[1..]) == Some(n)
    requires |rest| < n + 2
    ensures ParseValue(s) == Failed(if rest == [] then Eof else UnexpectedEof, [])
  {
  }

  lemma StreamStep(s: bytes, v: Value, vs: seq<Value>, left: bytes, end: Decoded)
    requires ParseValue(s) == Got(v, left)
    requires ParseStream(left) == Decoded(vs + end.values, end.rest)
    ensures ParseStream(s) == Decoded([v] + vs + end.values, end.rest)
  {
    hide ParseValue;
    assert [v] + (vs + end.values) == [v] + vs + end.values;
  }

  lemma EncodeAllCons(vs: seq<Value>, tail: bytes)
    requires vs != []
    ensures EncodeAll(vs) + tail == Encode(vs[0]) + (EncodeAll(vs[1..]) + tail)
  {
    hide Encode;
    Associative(Encode(vs[0]), EncodeAll(vs[1..]), tail);
  }

  lemma {:induction false} StreamOfEncodings(vs: seq<Value>, tail: bytes)
    requires AllWellFormed(vs)
    ensures ParseStream(EncodeAll(vs) + tail)
         == Decoded(vs + ParseStream(tail).values, ParseStream(tail).rest)
    decreases |vs|
  {
    hide ParseValue;
    hide ParseStream;
    hide Encode;
    hide WellFormed;
    if vs == [] {
      assert EncodeAll(vs) + tail == tail;
      assert vs + ParseStream(tail).values == ParseStream(tail).values;
    } else {
      assert WellFormed(vs[0]) && AllWellFormed(vs[1..]);
      hide *;
      var left := EncodeAll(vs[1..]) + tail;
      EncodeAllCons(vs, tail);
      DecodeEncode(vs[0], left);
      StreamOfEncodings(vs[1..], tail);
      StreamStep(Encode(vs[0]) + left, vs[0], vs[1..], left, ParseStream(tail));
      assert vs == [vs[0]] + vs[1..];
    }
  }

  /** A capture that ends inside a value decodes to exactly the complete values before it. */
  lemma TruncatedCapture(vs: seq<Value>, last: Value, cut: bytes)
    requires AllWellFormed(vs) && WellFormed(last)
    requires cut < Encode(last)
    ensures ParseStream(EncodeAll(vs) + cut) == Decoded(vs, cut)
  {
    hide ParseValue;
    CutEncodingFails(last, cut);
    StreamOfEncodings(vs, cut);
  }

  /** How many of the encodings of `vs` a capture holds in full. */
  function Complete(vs: seq<Value>, p: bytes): (n: nat)
    ensures n <= |vs|
    decreases |vs|
  {
    if vs == [] || !(Encode(vs[0]) <= p) then 0 else 1 + Complete(vs[1..], p[|Encode(vs[0])|..])
  }

  /** A capture that stops anywhere in a row of encodings decodes to the complete ones. */
  lemma {:induction false} CutCaptureDecodes(vs: seq<Value>, p: bytes)
    requires AllWellFormed(vs) && p <= EncodeAll(vs)
    ensures ParseStream(p).values == vs[..Complete(vs, p)]
    decreases |vs|
  {
    hide ParseValue;
    hide ParseStream;
    hide Encode;
    hide WellFormed;
    if vs == [] {
      NoValue([]);
    } else {
      var first := Encode(vs[0]);
      var left := CutAfter(first, EncodeAll(vs[1..]), p);
      assert WellFormed(vs[0]) && AllWellFormed(vs[1..]);
      if first <= p {
        DecodeEncode(vs[0], left);
        CutCaptureDecodes(vs[1..], left);
        StreamCons(p, vs[0], left);
        TakeCons(vs, Complete(vs[1..], left));
      } else {
        CutEncodingFails(vs[0], p);
        NoValue(p);
      }
    }
  }

  /** A prefix of `a + b` is a strict prefix of `a`, or `a` and a prefix of `b`. */
  lemma CutAfter(a: bytes, b: bytes, p: bytes) returns (left: bytes)
    requires p <= a + b
    ensures if a <= p then left == p[|a|..] && p == a + left && left <= b else p < a
  {
    left := if a <= p then p[|a|..] else [];
    assert (a + b)[..|a|] == a;
    if a <= p {
      assert left == (a + b)[|a|..|p|] == b[..|left|];
    }
  }

  lemma StreamCons(s: bytes, v: Value, left: bytes)
    requires ParseValue(s) == Got(v, left)
    ensures ParseStream(s).values == [v] + ParseStream(left).values
  {
    hide ParseValue;
  }

  lemma TakeCons<T>(xs: seq<T>, n: nat)
    requires xs != [] && n <= |xs| - 1
    ensures xs[..1 + n] == [xs[0]] + xs[1..][..n]
  {
  }

  lemma NoValue(p: bytes)
    requires p == [] || ParseValue(p).Failed?
    ensures ParseStream(p) == Decoded([], p)
  {
  }

  /** Re-encoding what was decoded gives a byte string that decodes to the same values. */
  lemma StreamNormalises(s: bytes)
    ensures ParseStream(EncodeAll(ParseStream(s).values)) == Decoded(ParseStream(s).values, [])
  {
    hide ParseValue;
    var vs := ParseStream(s).values;
    StreamIsMaximal(s);
    StreamOfEncodings(vs, []);
    assert EncodeAll(vs) + [] == EncodeAll(vs);
  }

  // ---- what a first line decides ----

  /** An empty line, an unknown kind byte, or a length that is no number. */
  predicate BadLine(line: bytes) {
    || line == []
    || line[0] !in {'+', '-', ':', '$', '*'}
    || (line[0] in {'$', '*'} && Atoi(line[1..]).None?)
  }

  /** Malformed input is noticed after at least one more byte. */
  lemma {:induction false} MalformedConsumes(s: bytes)
    requires ParseValue(s).Failed? && ParseValue(s).error == Malformed
    ensures |ParseValue(s).rest| < |s|
    decreases |s|, 0
  {
    var line, rest := ReadLine(s).value, ReadLine(s).rest;
    if line != [] && line[0] == '*' && Atoi(line[1..]).Some? && Atoi(line[1..]).value >= 0 {
      hide ReadLine;
      ParseArray(s, line, rest, Atoi(line[1..]).value);
    }
  }

  /** The parser fails with the first line consumed, as malformed, if and only if that line is bad. */
  lemma BadLineExactly(line: bytes, q: bytes)
    requires LineSafe(line)
    ensures ParseValue(line + CRLF + q) == Failed(Malformed, q) <==> BadLine(line)
  {
    hide ReadLine;
    var s := line + CRLF + q;
    ReadLineOf(line, q);
    TrimEolLineSafe(line);
    if line != [] && line[0] in {'+', '-', ':'} {
      ParseText(s, line, q);
    } else if line != [] && line[0] == '$' && Atoi(line[1..]).Some? {
      var n := Atoi(line[1..]).value;
      ParseBulk(s, line, q, n);
      if 0 <= n && |q| < n + 2 {
        ShortBulk(s, line, q, n);
      }
    } else if line != [] && line[0] == '*' && Atoi(line[1..]).Some? {
      BadItemsConsume(s, line, q, Atoi(line[1..]).value);
    }
  }

  lemma BadItemsConsume(s: bytes, line: bytes, q: bytes, n: int)
    requires ReadLine(s) == Got(line, q) && line != [] && line[0] == '*' && Atoi(line[1..]) == Some(n)
    ensures ParseValue(s) != Failed(Malformed, q)
  {
    ParseArray(s, line, q, n);
    if n > 0 {
      BadItemConsumes(q, n);
    }
    hide *;
  }

  lemma BadItemConsumes(q: bytes, n: nat)
    requires n > 0
    ensures ParseItems(q, n) != Failed(Malformed, q)
  {
    hide ParseValue;
    if ParseValue(q).Failed? && ParseValue(q).error == Malformed {
      MalformedConsumes(q);
    }
  }

  // ---- the display form ----

  /** Whether a reply on the wire is one whole RESP value that a client displays as `display`. */
  predicate ShowsAs(wire: bytes, display: bytes) {
    var r := ParseValue(wire);
    r.Got? && r.rest == [] && Render(r.value) == display
  }

  /** What a reply on the wire shows as, form by form; `s` fits on a line, `b` is any bytes. */
  lemma WireShows(s: bytes, b: bytes)
    requires LineSafe(s) && |b| <= MAX_INT
    ensures ShowsAs("+" + s + "\r\n", s)
    ensures ShowsAs("-" + s + "\r\n", "(error) " + s)
    ensures ShowsAs(":" + s + "\r\n", "(integer) " + s)
    ensures ShowsAs("$" + Decimal(|b|) + "\r\n" + b + "\r\n", b)
    ensures ShowsAs("$-1\r\n", "(nil)") && ShowsAs("*-1\r\n", "(nil)") && ShowsAs("*0\r\n", "[]")
  {
    hide ShowsAs;
    hide Decimal;
    EncodingShows(Simple(s));
    EncodingShows(Error(s));
    EncodingShows(Integer(s));
    EncodingShows(Bulk(b));
    NothingShows();
  }

  lemma NothingShows()
    ensures ShowsAs("$-1\r\n", "(nil)") && ShowsAs("*-1\r\n", "(nil)") && ShowsAs("*0\r\n", "[]")
  {
    hide ShowsAs;
    EncodingShows(NullBulk);
    EncodingShows(NullArray);
    EncodingShows(Array([]));
    assert Encode(NullBulk) == "$-1\r\n" && Encode(NullArray) == "*-1\r\n";
    assert Encode(Array([])) == "*" + "0" + "\r\n" + [] == "*0\r\n" by { assert Decimal(0) == "0"; }
    ArrayShows([], []);
  }

  lemma EncodingShows(v: Value)
    requires WellFormed(v)
    ensures ShowsAs(Encode(v), Render(v))
  {
    hide ParseValue;
    DecodeEncode(v, []);
    assert Encode(v) + [] == Encode(v);
  }

  lemma {:induction false} RenderAllAppend(xs: seq<Value>, ys: seq<Value>)
    ensures RenderAll(xs + ys) == RenderAll(xs) + RenderAll(ys)
    decreases |xs|
  {
    hide Render;
    if xs == [] {
      assert xs + ys == ys;
    } else {
      RenderAllAppend(xs[1..], ys);
      assert (xs + ys)[1..] == xs[1..] + ys;
    }
  }

  /** An array shows as the displays of its elements, in order, separated and in brackets: nothing
      at all for no element, the element's display for one, and two arrays' displays put together
      for an array that continues another. */
  lemma ArrayShows(xs: seq<Value>, ys: seq<Value>)
    ensures Render(Array([])) == "[]"
    ensures |xs| == 1 ==> Render(Array(xs)) == "[" + Render(xs[0]) + "]"
    ensures xs != [] && ys != [] ==>
      var a, b := Render(Array(xs)), Render(Array(ys));
      && |a| >= 2 && |b| >= 2
      && Render(Array(xs + ys)) == a[..|a| - 1] + ", " + b[1..]
  {
    if |xs| == 1 {
      assert RenderAll(xs) == [Render(xs[0])] by { assert xs[1..] == []; }
    }
    if xs != [] && ys != [] {
      RenderAllAppend(xs, ys);
      hide RenderAll;
      JoinAppend(RenderAll(xs), RenderAll(ys), ", ");
    }
  }

  /** The wire form of each kind of recorded display. */
  lemma RecordedForms(s: bytes)
    ensures EncodeReply("(nil)") == "$-1\r\n"
    ensures EncodeReply("(error) " + s) == "-" + s + "\r\n"
    ensures EncodeReply("(integer) " + s) == ":" + s + "\r\n"
    ensures s != "(nil)" && !("(error) " <= s) && !("(integer) " <= s) ==> EncodeReply(s) == "+" + s + "\r\n"
  {
    assert ("(error) " + s)[|ERROR_PREFIX|..] == s && ("(integer) " + s)[|INTEGER_PREFIX|..] == s;
    assert ("(error) " + s)[1] == 'e' && ("(integer) " + s)[1] == 'i' && ERROR_PREFIX[1] == 'e' && NIL[1] == 'n';
  }

  /** Errors, integers, null bulks, and simple strings that do not look like any of these. */
  predicate KeepsWireForm(v: Value) {
    || v.Error? || v.Integer? || v.NullBulk?
    || (v.Simple? && v.text != NIL && !(ERROR_PREFIX <= v.text) && !(INTEGER_PREFIX <= v.text))
  }

  /** The value whose wire form stands for a display. */
  function ReplyValue(d: bytes): (v: Value)
    ensures KeepsWireForm(v)
  {
    if d == NIL then NullBulk
    else if ERROR_PREFIX <= d then Error(d[|ERROR_PREFIX|..])
    else if INTEGER_PREFIX <= d then Integer(d[|INTEGER_PREFIX|..])
    else Simple(d)
  }

  lemma ReplyForm(d: bytes)
    ensures EncodeReply(d) == Encode(ReplyValue(d)) && Render(ReplyValue(d)) == d
  {
  }

  /** A one-line encoding determines its kind byte and its text. */
  lemma LineForm(kind: bytes, s: bytes, kind': bytes, s': bytes)
    requires |kind| == |kind'| == 1 && kind + s + CRLF == kind' + s' + CRLF
    ensures kind == kind' && s == s'
  {
    assert kind == (kind + s + CRLF)[..1] && kind' == (kind' + s' + CRLF)[..1];
    assert s == (kind + s + CRLF)[1..1 + |s|] && s' == (kind' + s' + CRLF)[1..1 + |s|];
  }

  /** The encodings of values that keep their wire form are no other value's. */
  lemma EncodingIs(v: Value, w: Value)
    requires KeepsWireForm(w) && Encode(v) == Encode(w)
    ensures v == w
  {
    KindByte(v);
    KindByte(w);
    match w
    case Simple(s) =>
      LineForm("+", s, "+", v.text);
    case Error(s) =>
      LineForm("-", s, "-", v.text);
    case Integer(s) =>
      LineForm(":", s, ":", v.text);
    case NullBulk =>
  }

  /** Exactly which displays are encoded as the wire form of a value: its own display, for the
      values that keep their wire form, and none for the others. */
  lemma WireFormExactly(v: Value, d: bytes)
    ensures EncodeReply(d) == Encode(v) <==> d == Render(v) && KeepsWireForm(v)
  {
    DisplayRoundTripExactly(v);
    ReplyForm(d);
    if EncodeReply(d) == Encode(v) {
      EncodingIs(v, ReplyValue(d));
    }
  }

  /** Different displays have different wire forms. */
  lemma EncodeReplyInjective(a: bytes, b: bytes)
    requires EncodeReply(a) == EncodeReply(b)
    ensures a == b
  {
    ReplyForm(a);
    WireFormExactly(ReplyValue(a), b);
  }

  lemma KindByte(v: Value)
    ensures Encode(v)[0] ==
      match v
      case Simple(_) => '+'
      case Error(_) => '-'
      case Integer(_) => ':'
      case Bulk(_) => '$'
      case NullBulk => '$'
      case _ => '*'
    ensures v.Bulk? ==> Encode(v)[1] != '-'
  {
    if v.Bulk? {
      assert IsDigit(Encode(v)[1]) by { assert Encode(v)[1] == Decimal(|v.text|)[0]; }
    }
  }

  /** Exactly which values get their own wire form back from their display. */
  lemma DisplayRoundTripExactly(v: Value)
    ensures EncodeReply(Render(v)) == Encode(v) <==> KeepsWireForm(v)
  {
    var e := EncodeReply(Render(v));
    match v
    case Error(s) =>
      assert Render(v)[|ERROR_PREFIX|..] == s;
    case Integer(s) =>
      assert Render(v)[1] == 'i' && ERROR_PREFIX[1] == 'e' && NIL[1] == 'n';
      assert Render(v)[|INTEGER_PREFIX|..] == s;
    case Simple(s) =>
      assert Encode(v)[0] == '+';
    case Bulk(s) =>
      assert IsDigit(Encode(v)[1]) by { assert Encode(v)[1] == Decimal(|s|)[0]; }
    case Array(items) =>
      assert Render(v)[0] == '[';
      assert e[0] == '+';
      assert Encode(v)[0] == '*';
    case NullBulk =>
    case NullArray =>
      assert e[0] == '$' && Encode(v)[0] == '*';
  }

  lemma ReplyLine(kind: bytes, body: bytes, q: bytes)
    requires kind in {"+", "-", ":"} && NoLF(body)
    ensures ReadLine(kind + body + CRLF + q) == Got(kind + TrimEol(body), q)
    ensures (kind + TrimEol(body))[0] == kind[0] && (kind + TrimEol(body))[1..] == TrimEol(body)
  {
    hide ReadLine;
    ReadLineOf(kind + body, q);
    TrimEolAppend(kind, body);
  }

  /** An encoded display without LF is one value, followed by whatever follows; it shows as the
      display with its trailing CRs trimmed. */
  lemma ReplyReads(d: bytes, q: bytes)
    requires NoLF(d)
    ensures var r := ParseValue(EncodeReply(d) + q);
      r.Got? && r.rest == q && Render(r.value) == TrimEol(d)
  {
    hide ParseValue;
    hide ReadLine;
    if d == NIL {
      DecodeNull("$", q);
      assert "$" + "-1" == "$-1";
      TrimEolIs(d, d);
    } else if ERROR_PREFIX <= d {
      var body := d[|ERROR_PREFIX|..];
      assert d == ERROR_PREFIX + body;
      ReplyLine("-", body, q);
      ParseText("-" + body + CRLF + q, "-" + TrimEol(body), q);
      TrimEolAppend(ERROR_PREFIX, body);
    } else if INTEGER_PREFIX <= d {
      var body := d[|INTEGER_PREFIX|..];
      assert d == INTEGER_PREFIX + body;
      ReplyLine(":", body, q);
      ParseText(":" + body + CRLF + q, ":" + TrimEol(body), q);
      TrimEolAppend(INTEGER_PREFIX, body);
    } else {
      ReplyLine("+", d, q);
      ParseText("+" + d + CRLF + q, "+" + TrimEol(d), q);
    }
  }

  /** The first LF of a text that starts with a kind byte and has an LF later on. */
  lemma FirstLFOf(kind: bytes, body: bytes, tail: bytes)
    requires |kind| == 1 && !IsEol(kind[0]) && !NoLF(body)
    ensures var wire := kind + body + tail;
      var i := IndexOf(wire, '\n');
      1 <= i <= |body| && NoLF(wire[..i])
  {
    var wire := kind + body + tail;
    var j :| 0 <= j < |body| && body[j] == '\n';
    assert wire[j + 1] == '\n';
    assert wire[0] == kind[0];
  }

  /** The first line of such a text is a line of that kind, and leaves the tail unread. */
  lemma FirstLineOf(kind: bytes, body: bytes, tail: bytes)
    requires |kind| == 1 && !IsEol(kind[0]) && !NoLF(body)
    ensures var r := ReadLine(kind + body + tail);
      r.Got? && |tail| <= |r.rest| && r.value != [] && r.value[0] == kind[0] && NoLF(r.value)
  {
    hide IndexOf;
    FirstLFOf(kind, body, tail);
    var wire := kind + body + tail;
    var i := IndexOf(wire, '\n');
    assert wire[..i + 1] == kind + wire[1..i + 1];
    TrimEolAppend(kind, wire[1..i + 1]);
    ReadLineSafe(wire);
    hide *;
  }

  lemma CutReplyLine(kind: bytes, body: bytes, q: bytes)
    requires kind in {"+", "-", ":"} && !NoLF(body)
    ensures var r := ParseValue(kind + body + CRLF + q);
      && r.Got? && |q| < |r.rest| && NoLF(Str(r.value))
      && r.value == if kind == "+" then Simple(Str(r.value)) else if kind == "-" then Error(Str(r.value))
                    else Integer(Str(r.value))
  {
    var wire := kind + body + CRLF + q;
    assert wire == kind + body + (CRLF + q);
    FirstLineOf(kind, body, CRLF + q);
    hide ParseValue;
    hide ReadLine;
    var line, rest := ReadLine(wire).value, ReadLine(wire).rest;
    ParseText(wire, line, rest);
    assert NoLF(line[1..]);
  }

  /** With an LF inside, the first line of the reply is a complete value and bytes are left over. */
  lemma ReplyWithLFLeavesBytes(d: bytes, q: bytes)
    requires !NoLF(d)
    ensures var r := ParseValue(EncodeReply(d) + q);
      r.Got? && |q| < |r.rest| && NoLF(Render(r.value))
  {
    hide ParseValue;
    if ERROR_PREFIX <= d {
      var body := d[|ERROR_PREFIX|..];
      assert d == ERROR_PREFIX + body;
      CutReplyLine("-", body, q);
    } else if INTEGER_PREFIX <= d {
      var body := d[|INTEGER_PREFIX|..];
      assert d == INTEGER_PREFIX + body;
      CutReplyLine(":", body, q);
    } else {
      CutReplyLine("+", d, q);
    }
  }

  /** A recorded display replays as itself if and only if it is safe on a line. */
  lemma DisplayReplaysExactly(d: bytes)
    ensures ShowsAs(EncodeReply(d), d) <==> LineSafe(d)
  {
    hide ParseValue;
    assert EncodeReply(d) + [] == EncodeReply(d);
    if NoLF(d) {
      ReplyReads(d, []);
      TrimEolLineSafe(d);
    } else {
      ReplyWithLFLeavesBytes(d, []);
    }
  }
}
