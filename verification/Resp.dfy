/** RESP2 values, the parser as a function of the bytes still unread, the wire encoding,
    and the display form in which recordings store replies. */
module Resp {
  import opened Bytes

  /** The values the parser can produce; the record in the source also carries a kind byte and
      a null flag, which the constructors stand for. */
  datatype Value =
    | Simple(text: bytes)
    | Error(text: bytes)
    | Integer(text: bytes)
    | Bulk(text: bytes)
    | NullBulk
    | Array(items: seq<Value>)
    | NullArray

  /** The `Str` field: empty for nulls and arrays. */
  function Str(v: Value): bytes {
    match v
    case Simple(s) => s
    case Error(s) => s
    case Integer(s) => s
    case Bulk(s) => s
    case _ => ""
  }

  predicate IsArray(v: Value) {
    v.Array? || v.NullArray?
  }

  /** `Eof` is an `io.EOF`, `UnexpectedEof` an `io.ErrUnexpectedEOF`; every other error is `Malformed`. */
  datatype ReadError = Eof | UnexpectedEof | Malformed

  /** One read from the front of the unread bytes: the outcome and what is left unread. */
  datatype Read<+T> =
    | Got(value: T, rest: bytes)
    | Failed(error: ReadError, rest: bytes)

  /** Number of nodes in a value, itself included. */
  function Nodes(v: Value): nat {
    if v.Array? then 1 + NodesOf(v.items) else 1
  }

  function NodesOf(vs: seq<Value>): nat {
    if vs == [] then 0 else Nodes(vs[0]) + NodesOf(vs[1..])
  }

  /** Values whose encoding denotes them: line values fit on a line, lengths fit an `int`. */
  predicate WellFormed(v: Value) {
    match v
    case Simple(s) => LineSafe(s)
    case Error(s) => LineSafe(s)
    case Integer(s) => LineSafe(s)
    case Bulk(s) => |s| <= MAX_INT
    case Array(items) => |items| <= MAX_INT && forall i :: 0 <= i < |items| ==> WellFormed(items[i])
    case _ => true
  }

  predicate AllWellFormed(vs: seq<Value>) {
    forall i :: 0 <= i < |vs| ==> WellFormed(vs[i])
  }

  /** `readLine`: up to and including the first LF, all trailing CR and LF trimmed. */
  function ReadLine(s: bytes): (r: Read<bytes>)
    ensures r.Got? ==> |r.value| + |r.rest| < |s|
    ensures r.Failed? ==> r.rest == []
  {
    var i := IndexOf(s, '\n');
    if i == |s| then Failed(Eof, [])
    else
      var line := TrimEol(s[..i + 1]);
      assert |line| <= i;
      Got(line, s[i + 1..])
  }

  /** `parseRESPValue`. */
  function ParseValue(s: bytes): (r: Read<Value>)
    ensures |r.rest| <= |s| && (r.Got? ==> |r.rest| < |s|)
    decreases |s|, 0
  {
    match ReadLine(s)
    case Failed(e, rest) => Failed(e, rest)
    case Got(line, rest) =>
      if line == [] then Failed(Malformed, rest)
      else
        var body := line[1..];
        match line[0]
        case '+' => Got(Simple(body), rest)
        case '-' => Got(Error(body), rest)
        case ':' => Got(Integer(body), rest)
        case '$' => (
          match Atoi(body)
          case None => Failed(Malformed, rest)
          case Some(n) =>
            if n < 0 then Got(NullBulk, rest)
            else if |rest| < n + 2 then Failed(if rest == [] then Eof else UnexpectedEof, [])
            else Got(Bulk(rest[..n]), rest[n + 2..]))
        case '*' => (
          match Atoi(body)
          case None => Failed(Malformed, rest)
          case Some(n) =>
            if n < 0 then Got(NullArray, rest)
            else
              match ParseItems(rest, n)
              case Failed(e, left) => Failed(e, left)
              case Got(items, left) => Got(Array(items), left))
        case _ => Failed(Malformed, rest)
  }

  /** The element loop of an array of `n` elements. */
  function ParseItems(s: bytes, n: nat): (r: Read<seq<Value>>)
    ensures |r.rest| <= |s|
    decreases |s|, 1
  {
    if n == 0 then Got([], s)
    else
      match ParseValue(s)
      case Failed(e, rest) => Failed(e, rest)
      case Got(v, rest) => Prepend([v], ParseItems(rest, n - 1))
  }

  function Prepend(vs: seq<Value>, r: Read<seq<Value>>): Read<seq<Value>> {
    if r.Got? then Got(vs + r.value, r.rest) else r
  }

  /** The complete values at the front of a capture, and the bytes after the last of them. */
  datatype Decoded = Decoded(values: seq<Value>, rest: bytes)

  /** `ParseRESPStream`: parse until the first error. */
  function ParseStream(s: bytes): Decoded
    decreases |s|
  {
    match ParseValue(s)
    case Failed(_, _) => Decoded([], s)
    case Got(v, rest) =>
      var d := ParseStream(rest);
      Decoded([v] + d.values, d.rest)
  }

  function EncodeSimpleString(s: bytes): bytes { "+" + s + CRLF }

  function EncodeError(s: bytes): bytes { "-" + s + CRLF }

  function EncodeInteger(s: bytes): bytes { ":" + s + CRLF }

  function EncodeNullBulk(): bytes { "$-1" + CRLF }

  function EncodeBulkString(s: bytes): bytes { "$" + Decimal(|s|) + CRLF + s + CRLF }

  /** The wire form of a whole value, as in the sections "Bulk strings", "Null bulk strings",
      "Arrays" and "Null arrays" of the Redis serialization protocol specification. */
  function Encode(v: Value): bytes
    decreases v, 0
  {
    match v
    case Simple(s) => EncodeSimpleString(s)
    case Error(s) => EncodeError(s)
    case Integer(s) => EncodeInteger(s)
    case Bulk(s) => EncodeBulkString(s)
    case NullBulk => EncodeNullBulk()
    case Array(items) => "*" + Decimal(|items|) + CRLF + EncodeAll(items)
    case NullArray => "*-1" + CRLF
  }

  function EncodeAll(vs: seq<Value>): bytes
    decreases vs, 1
  {
    if vs == [] then [] else Encode(vs[0]) + EncodeAll(vs[1..])
  }

  const NIL: bytes := "(nil)"
  const ERROR_PREFIX: bytes := "(error) "
  const INTEGER_PREFIX: bytes := "(integer) "

  /** `RESPValue.String`: the redis-cli style display. */
  function Render(v: Value): bytes
    decreases v, 0
  {
    match v
    case Error(s) => ERROR_PREFIX + s
    case Integer(s) => INTEGER_PREFIX + s
    case Bulk(s) => s
    case Simple(s) => s
    case NullBulk => NIL
    case NullArray => NIL
    case Array(items) => "[" + Join(RenderAll(items), ", ") + "]"
  }

  function RenderAll(vs: seq<Value>): (r: seq<bytes>)
    ensures |r| == |vs|
    decreases vs, 1
  {
    if vs == [] then [] else [Render(vs[0])] + RenderAll(vs[1..])
  }

  /** `EncodeReply`: the wire bytes that stand for a recorded display. */
  function EncodeReply(display: bytes): bytes {
    if display == NIL then EncodeNullBulk()
    else if ERROR_PREFIX <= display then EncodeError(display[|ERROR_PREFIX|..])
    else if INTEGER_PREFIX <= display then EncodeInteger(display[|INTEGER_PREFIX|..])
    else EncodeSimpleString(display)
  }
}
