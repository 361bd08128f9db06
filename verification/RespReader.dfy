/** The decoder as it runs: a shared buffered reader with a cursor, advanced step by step.
    Each method leaves the reader exactly where the parser function says. */
module RespReader {
  import opened Bytes
  import opened Resp

  datatype Result<+T> = Success(value: T) | Failure(error: ReadError)

  /** A method's result together with what it left unread. */
  function AsRead<T>(r: Result<T>, rest: bytes): Read<T> {
    match r
    case Success(v) => Got(v, rest)
    case Failure(e) => Failed(e, rest)
  }

  /** A `bufio.Reader` over bytes that end: a captured slice, or everything a peer sent before it
      closed the connection. */
  class Reader {
    const buf: bytes
    var pos: nat

    ghost predicate Valid()
      reads this
    {
      pos <= |buf|
    }

    function Remaining(): bytes
      requires Valid()
      reads this
    {
      buf[pos..]
    }

    constructor (input: bytes)
      ensures Valid() && Remaining() == input
    {
      buf, pos := input, 0;
    }

    /** `ReadString`: up to and including the delimiter; end of file consumes everything. */
    method ReadString(delim: char) returns (r: Result<bytes>)
      requires Valid()
      modifies this`pos
      ensures Valid()
      ensures var s, i := old(Remaining()), IndexOf(old(Remaining()), delim);
        if i == |s| then r == Failure(Eof) && Remaining() == []
        else r == Success(s[..i + 1]) && Remaining() == s[i + 1..]
    {
      var start := pos;
      while pos < |buf| && buf[pos] != delim
        invariant start <= pos <= |buf|
        invariant forall j :: start <= j < pos ==> buf[j] != delim
      {
        pos := pos + 1;
      }
      ghost var s := buf[start..];
      ghost var i := IndexOf(s, delim);
      assert forall j :: 0 <= j < pos - start ==> s[j] == buf[start + j];
      if pos == |buf| {
        return Failure(Eof);
      }
      assert s[pos - start] == delim;
      assert i == pos - start;
      pos := pos + 1;
      assert buf[start..pos] == s[..i + 1];
      return Success(buf[start..pos]);
    }

    /** `io.ReadFull` into a buffer of `n` bytes. */
    method ReadFull(n: nat) returns (r: Result<bytes>)
      requires Valid()
      modifies this`pos
      ensures Valid()
      ensures var s := old(Remaining());
        if n <= |s| then r == Success(s[..n]) && Remaining() == s[n..]
        else r == Failure(if s == [] then Eof else UnexpectedEof) && Remaining() == []
    {
      if n <= |buf| - pos {
        assert buf[pos..][..n] == buf[pos..pos + n];
        r := Success(buf[pos..pos + n]);
        pos := pos + n;
      } else {
        r := Failure(if pos == |buf| then Eof else UnexpectedEof);
        pos := |buf|;
      }
    }
  }

  method ReadLineFrom(r: Reader) returns (line: Result<bytes>)
    requires r.Valid()
    modifies r`pos
    ensures r.Valid()
    ensures AsRead(line, r.Remaining()) == ReadLine(old(r.Remaining()))
  {
    var raw := r.ReadString('\n');
    match raw
    case Failure(e) =>
      return Failure(e);
    case Success(text) =>
      return Success(TrimEol(text));
  }

  lemma ParseItemsStep(s: bytes, n: nat)
    requires n > 0
    ensures ParseItems(s, n) ==
      match ParseValue(s)
      case Failed(e, rest) => Failed(e, rest)
      case Got(v, rest) => Prepend([v], ParseItems(rest, n - 1))
  {
  }

  lemma ParseNoItems(s: bytes)
    ensures ParseItems(s, 0) == Got([], s)
  {
  }

  lemma PrependPrepend(xs: seq<Value>, ys: seq<Value>, r: Read<seq<Value>>)
    ensures Prepend(xs, Prepend(ys, r)) == Prepend(xs + ys, r)
  {
    if r.Got? {
      assert xs + (ys + r.value) == xs + ys + r.value;
    }
  }

  lemma PrependNothing(r: Read<seq<Value>>)
    ensures Prepend([], r) == r
  {
    if r.Got? {
      assert [] + r.value == r.value;
    }
  }

  /** `parseRESPValue`. */
  method ReadValue(r: Reader) returns (result: Result<Value>)
    requires r.Valid()
    modifies r`pos
    ensures r.Valid()
    ensures AsRead(result, r.Remaining()) == ParseValue(old(r.Remaining()))
    decreases |r.Remaining()|, 1
  {
    var read := ReadLineFrom(r);
    if read.Failure? {
      return Failure(read.error);
    }
    var line := read.value;
    if |line| == 0 {
      return Failure(Malformed);
    }
    var kind, body := line[0], line[1..];
    match kind {
      case '+' => return Success(Simple(body));
      case '-' => return Success(Error(body));
      case ':' => return Success(Integer(body));
      case '$' =>
        var n := Atoi(body);
        if n.None? {
          return Failure(Malformed);
        }
        if n.value < 0 {
          return Success(NullBulk);
        }
        ghost var rest := r.Remaining();
        var data := r.ReadFull(n.value + 2);
        if data.Failure? {
          return Failure(data.error);
        }
        assert rest[..n.value + 2][..n.value] == rest[..n.value];
        return Success(Bulk(data.value[..n.value]));
      case '*' =>
        var n := Atoi(body);
        if n.None? {
          return Failure(Malformed);
        }
        if n.value < 0 {
          return Success(NullArray);
        }
        var items := ReadItems(r, n.value);
        if items.Failure? {
          return Failure(items.error);
        }
        return Success(Array(items.value));
      case _ => return Failure(Malformed);
    }
  }

  /** The element loop of `parseRESPValue`. */
  method ReadItems(r: Reader, n: nat) returns (result: Result<seq<Value>>)
    requires r.Valid()
    modifies r`pos
    ensures r.Valid()
    ensures AsRead(result, r.Remaining()) == ParseItems(old(r.Remaining()), n)
    decreases |r.Remaining()|, 2
  {
    hide ParseValue;
    hide ParseItems;
    ghost var start := r.Remaining();
    var items: seq<Value> := [];
    var i := 0;
    PrependNothing(ParseItems(start, n));
    while i < n
      invariant r.Valid() && 0 <= i <= n
      invariant |r.Remaining()| <= |start|
      invariant ParseItems(start, n) == Prepend(items, ParseItems(r.Remaining(), n - i))
    {
      ghost var left := r.Remaining();
      ParseItemsStep(left, n - i);
      var elem := ReadValue(r);
      if elem.Failure? {
        return Failure(elem.error);
      }
      PrependPrepend(items, [elem.value], ParseItems(r.Remaining(), n - i - 1));
      items := items + [elem.value];
      i := i + 1;
    }
    ParseNoItems(r.Remaining());
    assert items + [] == items;
    return Success(items);
  }

  lemma ParseStreamStep(s: bytes)
    ensures ParseStream(s).values ==
      match ParseValue(s)
      case Failed(_, _) => []
      case Got(v, rest) => [v] + ParseStream(rest).values
  {
    hide ParseValue;
  }

  /** `ParseRESPStream`: values until the first error; `ok` when there was at least one. */
  method ParseRESPStream(buf: bytes) returns (values: seq<Value>, ok: bool)
    ensures values == ParseStream(buf).values
    ensures ok <==> values != []
  {
    hide ParseValue;
    hide ParseStream;
    var r := new Reader(buf);
    values := [];
    while true
      invariant r.Valid()
      invariant ParseStream(buf).values == values + ParseStream(r.Remaining()).values
      decreases |r.Remaining()|
    {
      ParseStreamStep(r.Remaining());
      var v := ReadValue(r);
      if v.Failure? {
        assert values + [] == values;
        break;
      }
      values := values + [v.value];
    }
    ok := |values| > 0;
  }
}
