/**
 * `trace` in tracer/tracer.py: the lines `tracert` prints are scanned one
 * by one, the first IPv4 address of each is collected, and the list is
 * reshaped into a route that ends at the destination.
 */
module Tracer {
  import opened Wrappers
  import opened TraceRegex

  datatype TraceError =
    | InvalidArguments  // `--hops` or `--wait` not positive
    | InvalidDomain     // at most one address in the output

  /** The address `IP_REGEX` finds in a line, as a list of zero or one element. */
  function LineIps(line: string): (r: seq<string>)
    ensures |r| <= 1
  {
    match SearchIp(line)
    case Some(ip) => [ip]
    case None => []
  }

  /** The addresses the loop collects: the first match of each line that has one, in line order. */
  function CollectIps(lines: seq<string>): (ips: seq<string>)
    ensures |ips| <= |lines|
  {
    if lines == [] then [] else CollectIps(lines[..|lines| - 1]) + LineIps(lines[|lines| - 1])
  }

  /** Collecting over two pieces of output is collecting over each, in order. */
  lemma {:induction false} CollectIpsAppend(a: seq<string>, b: seq<string>)
    ensures CollectIps(a + b) == CollectIps(a) + CollectIps(b)
    decreases |b|
  {
    if b != [] {
      var b' := b[..|b| - 1];
      CollectIpsAppend(a, b');
      assert (a + b)[..|a + b| - 1] == a + b';
      assert (a + b)[|a + b| - 1] == b[|b| - 1];
    } else {
      assert a + b == a;
    }
  }

  /** One line contributes nothing when no part of it is a dotted quad, and otherwise its leftmost, longest one. */
  lemma LineIpsSpec(line: string)
    ensures LineIps(line) == [] <==> forall p, q :: 0 <= p <= q <= |line| ==> !IsDottedQuad(line[p..q])
    ensures LineIps(line) != [] ==>
      exists p, q :: LeftmostLongest(line, p, q) && LineIps(line) == [line[p..q]]
  {
    SearchIpSpec(line);
  }

  /** Every collected address is a dotted quad taken from one of the lines. */
  lemma {:induction false} CollectIpsQuads(lines: seq<string>)
    ensures forall k :: 0 <= k < |CollectIps(lines)| ==> IsDottedQuad(CollectIps(lines)[k])
  {
    if lines != [] {
      var init := lines[..|lines| - 1];
      CollectIpsQuads(init);
      var line := lines[|lines| - 1];
      LineIpsSpec(line);
      if LineIps(line) != [] {
        var p, q :| LeftmostLongest(line, p, q) && LineIps(line) == [line[p..q]];
      }
    }
  }

  /**
   * The route `trace` reports from the addresses `found`: the first one is
   * the destination; the rest follow in order, and the destination closes
   * the list, appended only when it is not already last.
   */
  predicate IsRoute(found: seq<string>, route: seq<string>)
  {
    |found| >= 2 && |found| - 1 <= |route| <= |found|
    && route[..|found| - 1] == found[1..]
    && route[|route| - 1] == found[0]
    && (|route| == |found| - 1 <==> found[|found| - 1] == found[0])
  }

  /** The route is determined by the addresses found. */
  lemma RouteUnique(found: seq<string>, r1: seq<string>, r2: seq<string>)
    requires IsRoute(found, r1) && IsRoute(found, r2)
    ensures r1 == r2
  {
    if |r1| == |found| {
      assert r1 == r1[..|found| - 1] + [r1[|r1| - 1]];
      assert r2 == r2[..|found| - 1] + [r2[|r2| - 1]];
    }
  }

  /** The destination is never appended next to itself, and the route holds only addresses that were found. */
  lemma RouteProperties(found: seq<string>, route: seq<string>)
    requires IsRoute(found, route)
    ensures |route| == |found| ==> route[|route| - 2] != route[|route| - 1]
    ensures forall x :: x in route ==> x in found
  {
    forall x | x in route ensures x in found {
      var k :| 0 <= k < |route| && route[k] == x;
      if k < |found| - 1 {
        assert route[..|found| - 1][k] == found[k + 1];
      }
    }
    if |route| == |found| {
      assert route[..|found| - 1][|route| - 2] == found[|found| - 1];
    }
  }

  /** Some line of the output matches `TIMEOUT_REGEX`. */
  predicate TimedOut(lines: seq<string>)
  {
    exists k :: 0 <= k < |lines| && HasTimeout(lines[k])
  }

  /**
   * The body of `trace` once `tracert` has been started: `lines` is its
   * output, and `terminated` says whether the process was told to stop.
   */
  method Trace(lines: seq<string>) returns (r: Result<seq<string>, TraceError>, terminated: bool)
    ensures terminated <==> TimedOut(lines)
    ensures r.Failure? <==> |CollectIps(lines)| <= 1
    ensures r.Failure? ==> r.error == InvalidDomain
    ensures r.Success? ==> IsRoute(CollectIps(lines), r.value)
  {
    var ips: seq<string> := [];
    terminated := false;
    var i := 0;
    while i < |lines|
      invariant 0 <= i <= |lines|
      invariant ips == CollectIps(lines[..i])
      invariant terminated <==> TimedOut(lines[..i])
    {
      var line := lines[i];
      var matchIp := SearchIp(line);
      var matchTimeout := HasTimeout(line);
      if matchIp.Some? {
        ips := ips + [matchIp.value];
      }
      if matchTimeout {
        terminated := true;
      }
      CollectStep(lines, i);
      TimedOutStep(lines, i);
      i := i + 1;
    }
    assert lines[..i] == lines;
    if |ips| <= 1 {
      return Failure(InvalidDomain), terminated;
    }
    ghost var found := ips;
    var dest := ips[0];
    ips := ips[1..];
    if ips[|ips| - 1] != dest {
      ips := ips + [dest];
    }
    Reshaped(found, ips);
    r := Success(ips);
  }

  /** Dropping the destination from the front and closing the list with it makes a route. */
  lemma Reshaped(found: seq<string>, route: seq<string>)
    requires |found| >= 2
    requires route == if found[|found| - 1] != found[0] then found[1..] + [found[0]] else found[1..]
    ensures IsRoute(found, route)
  {
    assert route[..|found| - 1] == found[1..];
  }

  /** One more line of output: its address is collected. */
  lemma CollectStep(lines: seq<string>, i: nat)
    requires i < |lines|
    ensures CollectIps(lines[..i + 1]) == CollectIps(lines[..i]) + LineIps(lines[i])
  {
    var next := lines[..i + 1];
    assert next[..i] == lines[..i];
  }

  /** One more line of output: its asterisks are looked at. */
  lemma TimedOutStep(lines: seq<string>, i: nat)
    requires i < |lines|
    ensures TimedOut(lines[..i + 1]) <==> TimedOut(lines[..i]) || HasTimeout(lines[i])
  {
    var next := lines[..i + 1];
    if TimedOut(next) {
      var k :| 0 <= k < |next| && HasTimeout(next[k]);
      if k < i {
        assert lines[..i][k] == next[k];
      }
    }
    if TimedOut(lines[..i]) {
      var k :| 0 <= k < i && HasTimeout(lines[..i][k]);
      assert next[k] == lines[..i][k];
    }
    if HasTimeout(lines[i]) {
      assert next[i] == lines[i];
    }
  }

  /** `main`: the arguments are checked before anything is traced. */
  method Run(hops: int, wait: int, lines: seq<string>) returns (r: Result<seq<string>, TraceError>, terminated: bool)
    ensures r == Failure(InvalidArguments) <==> hops <= 0 || wait <= 0
    ensures hops <= 0 || wait <= 0 ==> !terminated
    ensures hops > 0 && wait > 0 ==>
      (terminated <==> TimedOut(lines))
      && (r.Failure? <==> |CollectIps(lines)| <= 1)
      && (r.Success? ==> IsRoute(CollectIps(lines), r.value))
  {
    if hops <= 0 || wait <= 0 {
      return Failure(InvalidArguments), false;
    }
    r, terminated := Trace(lines);
  }
}
