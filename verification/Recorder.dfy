/** Building a test case out of a session's exchanges. */
module Recorder {
  import opened Bytes
  import opened Sequences
  import opened RedisCalls
  import opened Exchanges

  datatype Dependency = Dependency(kind: bytes, request: bytes, response: bytes)

  datatype TestCase = TestCase(
    name: bytes,
    request: Option<HTTPRequest>,
    response: Option<HTTPResponse>,
    dependencies: seq<Dependency>)

  function DependencyOf(call: RedisCall): Dependency {
    Dependency("redis", Join(call.command, " "), call.reply)
  }

  function DependenciesOf(ex: Exchange): seq<Dependency> {
    if ex.protocol == ProtocolRedis
    then seq(|ex.redis|, i requires 0 <= i < |ex.redis| => DependencyOf(ex.redis[i]))
    else []
  }

  function Dependencies(exchanges: seq<Exchange>): seq<Dependency> {
    FlatMap(DependenciesOf, exchanges)
  }

  predicate IsHTTP(ex: Exchange) {
    ex.protocol == ProtocolHTTP && ex.http.Some?
  }

  /** Position of the exchange under test, or the number of exchanges if there is none. */
  function FirstHTTP(exchanges: seq<Exchange>): (i: nat)
    ensures i <= |exchanges|
    ensures i < |exchanges| ==> IsHTTP(exchanges[i])
    ensures forall j :: 0 <= j < i ==> !IsHTTP(exchanges[j])
  {
    if exchanges == [] || IsHTTP(exchanges[0]) then 0 else 1 + FirstHTTP(exchanges[1..])
  }

  /** `Build`: the first HTTP exchange is under test, every Redis call is a dependency. */
  method Build(name: bytes, exchanges: seq<Exchange>) returns (tc: TestCase, ok: bool)
    ensures ok <==> FirstHTTP(exchanges) < |exchanges|
    ensures tc.name == name
    ensures tc.dependencies == Dependencies(exchanges)
    ensures ok ==> var under := exchanges[FirstHTTP(exchanges)].http.value;
      tc.request == under.request && tc.response == under.response
    ensures !ok ==> tc.request == None && tc.response == None
  {
    tc := TestCase(name, None, None, []);
    var foundHTTP := false;
    for i := 0 to |exchanges|
      invariant tc.name == name
      invariant tc.dependencies == Dependencies(exchanges[..i])
      invariant foundHTTP <==> FirstHTTP(exchanges) < i
      invariant foundHTTP ==> var under := exchanges[FirstHTTP(exchanges)].http.value;
        tc.request == under.request && tc.response == under.response
      invariant !foundHTTP ==> tc.request == None && tc.response == None
    {
      var ex := exchanges[i];
      FlatMapSnoc(DependenciesOf, exchanges, i);
      match ex.protocol {
        case ProtocolHTTP =>
          if foundHTTP || ex.http.None? {
            continue;
          }
          foundHTTP := true;
          if ex.http.value.request.Some? {
            tc := tc.(request := ex.http.value.request);
          }
          if ex.http.value.response.Some? {
            tc := tc.(response := ex.http.value.response);
          }
        case ProtocolRedis =>
          ghost var before := tc;
          for j := 0 to |ex.redis|
            invariant tc == before.(dependencies := before.dependencies + DependenciesOf(ex)[..j])
          {
            tc := tc.(dependencies := tc.dependencies + [DependencyOf(ex.redis[j])]);
          }
          assert DependenciesOf(ex)[..|ex.redis|] == DependenciesOf(ex);
        case ProtocolUnknown =>
      }
    }
    assert exchanges[..|exchanges|] == exchanges;
    ok := foundHTTP;
  }

  /** Every recorded call is a dependency, and every dependency is some recorded call. */
  lemma RecordedCallsAreDependencies(exchanges: seq<Exchange>, dep: Dependency)
    ensures dep in Dependencies(exchanges) <==>
      exists ex, call ::
        && ex in exchanges && ex.protocol == ProtocolRedis && call in ex.redis
        && dep == Dependency("redis", Join(call.command, " "), call.reply)
  {
    if ex, call :|
      && ex in exchanges && ex.protocol == ProtocolRedis && call in ex.redis
      && dep == Dependency("redis", Join(call.command, " "), call.reply)
    {
      var i :| 0 <= i < |ex.redis| && ex.redis[i] == call;
      assert DependenciesOf(ex)[i] == dep;
      FlatMapContains(DependenciesOf, exchanges, ex, dep);
    }
    if dep in Dependencies(exchanges) {
      DependencyIsRecorded(exchanges, dep);
      var ex, call :|
        ex in exchanges && ex.protocol == ProtocolRedis && call in ex.redis && dep == DependencyOf(call);
      assert dep == Dependency("redis", Join(call.command, " "), call.reply);
    }
  }

  lemma {:induction false} DependencyIsRecorded(exchanges: seq<Exchange>, dep: Dependency)
    requires dep in Dependencies(exchanges)
    ensures exists ex, call ::
      ex in exchanges && ex.protocol == ProtocolRedis && call in ex.redis && dep == DependencyOf(call)
  {
    var ex := exchanges[0];
    if dep in DependenciesOf(ex) {
      var i :| 0 <= i < |ex.redis| && DependenciesOf(ex)[i] == dep;
      assert ex in exchanges && ex.redis[i] in ex.redis;
    } else {
      DependencyIsRecorded(exchanges[1..], dep);
      var e, call :| e in exchanges[1..] && e.protocol == ProtocolRedis && call in e.redis && dep == DependencyOf(call);
      assert e in exchanges;
    }
  }

  /** The order of the exchanges only orders the dependencies. */
  lemma DependenciesIgnoreOrder(xs: seq<Exchange>, ys: seq<Exchange>)
    requires multiset(xs) == multiset(ys)
    ensures multiset(Dependencies(xs)) == multiset(Dependencies(ys))
  {
    FlatMapPermutes(DependenciesOf, xs, ys);
  }
}
