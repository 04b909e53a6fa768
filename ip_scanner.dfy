/**
 * IP range expansion and the parallel host sweep. Addresses are modelled by their
 * family and integer value, as `int(start)` and `ipaddress.ip_address(cur)` see
 * them; parsing an address from text (`ipaddress.ip_address(s)`) and rendering one
 * as text (`str(...)`) are the oracles `parse` and `render`.
 */
module IpScanner {
  import opened Wrappers
  import opened Text
  import opened Ordering
  import opened Probes

  datatype Version = V4 | V6

  datatype IpAddress = IpAddress(version: Version, value: int)

  const V4Limit: int := 0x1_0000_0000
  const V6Limit: int := 0x1_0000_0000_0000_0000_0000_0000_0000_0000

  /** One past the largest value of the family: 2^32 for IPv4, 2^128 for IPv6. */
  function Limit(v: Version): int {
    if v == V4 then V4Limit else V6Limit
  }

  /** An `IPv4Address` or `IPv6Address` object: the value fits its family. */
  type Address = a: IpAddress | 0 <= a.value < Limit(a.version) witness IpAddress(V4, 0)

  /**
   * `ipaddress.ip_address(n)` on an integer: IPv4 whenever n < 2^32, IPv6 up to
   * 2^128, and a ValueError (None) otherwise. The family of the address the
   * integer came from plays no part.
   */
  function IntToAddress(n: int): (r: Option<Address>)
    ensures r.Some? <==> 0 <= n < V6Limit
    ensures r.Some? ==> r.value.value == n
    ensures r.Some? ==> (r.value.version == V4 <==> n < V4Limit)
  {
    if 0 <= n < V4Limit then Some(IpAddress(V4, n))
    else if V4Limit <= n < V6Limit then Some(IpAddress(V6, n))
    else None
  }

  /** `[str(ipaddress.ip_address(n)) for n in range(lo, hi + 1)]`, in ascending order of n. */
  function Span(lo: int, hi: int, render: Address -> string): (r: seq<string>)
    requires 0 <= lo && hi < V6Limit
    ensures |r| == if hi < lo then 0 else hi - lo + 1
    ensures forall k :: 0 <= k < |r| ==> r[k] == render(IntToAddress(lo + k).value)
    decreases hi - lo
  {
    if hi < lo then [] else Span(lo, hi - 1, render) + [render(IntToAddress(hi).value)]
  }

  /**
   * What `expand_range(spec)` returns; None stands for the exception it raises: a
   * ValueError from parsing an endpoint, or the TypeError that comparing an IPv4
   * with an IPv6 address raises.
   */
  function Expansion(spec: string, parse: string -> Option<Address>, render: Address -> string)
    : Option<seq<string>>
  {
    if '-' in spec then
      var (startText, endText) := SplitOnce(spec, '-');
      match (parse(Strip(startText)), parse(Strip(endText)))
      case (Some(x), Some(y)) =>
        if x.version != y.version then None
        else if x.value <= y.value then Some(Span(x.value, y.value, render))
        else Some(Span(y.value, x.value, render))
      case _ => None
    else
      match parse(Strip(spec))
      case Some(x) => Some([render(x)])
      case None => None
  }

  /** `expand_range(range_spec)`, with its swap and its `while` loop over the integer values. */
  method ExpandRange(spec: string, parse: string -> Option<Address>, render: Address -> string)
    returns (r: Option<seq<string>>)
    ensures r == Expansion(spec, parse, render)
  {
    if '-' in spec {
      var (startText, endText) := SplitOnce(spec, '-');
      var start := parse(Strip(startText));
      if start.None? {
        return None;
      }
      var end := parse(Strip(endText));
      if end.None? {
        return None;
      }
      var lo, hi := start.value, end.value;
      if lo.version != hi.version {
        return None;
      }
      if lo.value > hi.value {
        lo, hi := hi, lo;
      }
      var out: seq<string> := [];
      var cur := lo.value;
      while cur <= hi.value
        invariant lo.value <= cur <= hi.value + 1
        invariant out == Span(lo.value, cur - 1, render)
        decreases hi.value - cur
      {
        var address := IntToAddress(cur);
        out := out + [render(address.value)];
        cur := cur + 1;
      }
      return Some(out);
    } else {
      var address := parse(Strip(spec));
      if address.None? {
        return None;
      }
      return Some([render(address.value)]);
    }
  }

  /** The text of a range whose endpoints are `a` and `b`. */
  function RangeText(a: string, b: string): string {
    a + "-" + b
  }

  lemma SplitRangeText(a: string, b: string)
    requires '-' !in a
    ensures '-' in RangeText(a, b)
    ensures SplitOnce(RangeText(a, b), '-') == (a, b)
  {
    SplitOnceOf(a, '-', b);
    assert a + ['-'] + b == RangeText(a, b);
  }

  /** Reversed endpoints are swapped first, so writing them the other way round changes nothing. */
  lemma SwapEndpoints(a: string, b: string, parse: string -> Option<Address>, render: Address -> string)
    requires '-' !in a && '-' !in b
    ensures Expansion(RangeText(a, b), parse, render) == Expansion(RangeText(b, a), parse, render)
  {
    SplitRangeText(a, b);
    SplitRangeText(b, a);
  }

  /**
   * A range of two addresses of one family gives |end - start| + 1 >= 1 entries: the
   * integer values from the smaller endpoint to the larger, in ascending order.
   */
  lemma RangeContents(a: string, b: string, x: Address, y: Address,
                      parse: string -> Option<Address>, render: Address -> string)
    requires '-' !in a
    requires parse(Strip(a)) == Some(x) && parse(Strip(b)) == Some(y)
    requires x.version == y.version
    ensures var r := Expansion(RangeText(a, b), parse, render);
      var lo := if x.value <= y.value then x.value else y.value;
      && r.Some?
      && |r.value| == (if x.value <= y.value then y.value - x.value else x.value - y.value) + 1
      && |r.value| >= 1
      && forall k :: 0 <= k < |r.value| ==> r.value[k] == render(IntToAddress(lo + k).value)
  {
    SplitRangeText(a, b);
  }

  /**
   * With `render` injective, a text is in the expansion exactly when it renders an
   * integer between the two endpoints.
   */
  lemma RangeMembership(a: string, b: string, x: Address, y: Address,
                        parse: string -> Option<Address>, render: Address -> string, n: int)
    requires '-' !in a
    requires parse(Strip(a)) == Some(x) && parse(Strip(b)) == Some(y)
    requires x.version == y.version
    requires forall p, q :: render(p) == render(q) ==> p == q
    ensures var r := Expansion(RangeText(a, b), parse, render);
      var lo := if x.value <= y.value then x.value else y.value;
      var hi := if x.value <= y.value then y.value else x.value;
      && r.Some?
      && (0 <= n < V6Limit ==> (render(IntToAddress(n).value) in r.value <==> lo <= n <= hi))
  {
    RangeContents(a, b, x, y, parse, render);
    var e := Expansion(RangeText(a, b), parse, render);
    var lo := if x.value <= y.value then x.value else y.value;
    var hi := if x.value <= y.value then y.value else x.value;
    assert e.Some? && |e.value| == hi - lo + 1;
    if 0 <= n < V6Limit {
      SpanMembership(e.value, lo, render, n);
    }
  }

  /** In a walk from `lo` of injectively rendered addresses, a value's rendering occurs exactly at its place. */
  lemma SpanMembership(r: seq<string>, lo: int, render: Address -> string, n: int)
    requires 0 <= lo && 0 <= n < V6Limit && lo + |r| <= V6Limit
    requires forall k :: 0 <= k < |r| ==> r[k] == render(IntToAddress(lo + k).value)
    requires forall p, q :: render(p) == render(q) ==> p == q
    ensures render(IntToAddress(n).value) in r <==> lo <= n < lo + |r|
  {
    var w := render(IntToAddress(n).value);
    if w in r {
      var k :| 0 <= k < |r| && r[k] == w;
      assert IntToAddress(lo + k).value == IntToAddress(n).value;
    }
    if lo <= n < lo + |r| {
      assert r[n - lo] == w;
    }
  }

  /** Comparing an IPv4 with an IPv6 endpoint raises TypeError. */
  lemma MixedFamiliesFail(a: string, b: string, x: Address, y: Address,
                          parse: string -> Option<Address>, render: Address -> string)
    requires '-' !in a
    requires parse(Strip(a)) == Some(x) && parse(Strip(b)) == Some(y)
    requires x.version != y.version
    ensures Expansion(RangeText(a, b), parse, render) == None
  {
    SplitRangeText(a, b);
  }

  /** An endpoint that is not an address makes the whole range fail. */
  lemma BadEndpointFails(a: string, b: string, parse: string -> Option<Address>, render: Address -> string)
    requires '-' !in a
    requires parse(Strip(a)).None? || parse(Strip(b)).None?
    ensures Expansion(RangeText(a, b), parse, render) == None
  {
    SplitRangeText(a, b);
  }

  /** Without a dash the result is the one address given, in its own rendering. */
  lemma SingleAddress(spec: string, parse: string -> Option<Address>, render: Address -> string)
    requires '-' !in spec
    ensures parse(Strip(spec)).Some? ==> Expansion(spec, parse, render) == Some([render(parse(Strip(spec)).value)])
    ensures parse(Strip(spec)).None? ==> Expansion(spec, parse, render) == None
  {
  }

  /**
   * The values of one family from lo to hi, each rendered as an address of that
   * family: what the docstring's "list of IPs" between the two endpoints means.
   */
  function FamilySpan(v: Version, lo: int, hi: int, render: Address -> string): (r: seq<string>)
    requires 0 <= lo && hi < Limit(v)
    ensures |r| == if hi < lo then 0 else hi - lo + 1
    ensures forall k :: 0 <= k < |r| ==> lo + k < Limit(v) && r[k] == render(IpAddress(v, lo + k))
    decreases hi - lo
  {
    if hi < lo then [] else FamilySpan(v, lo, hi - 1, render) + [render(IpAddress(v, hi))]
  }

  /** `expand_range` with the endpoints' family kept for every address in between. */
  function CorrectedExpansion(spec: string, parse: string -> Option<Address>, render: Address -> string)
    : Option<seq<string>>
  {
    if '-' in spec then
      var (startText, endText) := SplitOnce(spec, '-');
      match (parse(Strip(startText)), parse(Strip(endText)))
      case (Some(x), Some(y)) =>
        if x.version != y.version then None
        else if x.value <= y.value then Some(FamilySpan(x.version, x.value, y.value, render))
        else Some(FamilySpan(x.version, y.value, x.value, render))
      case _ => None
    else
      match parse(Strip(spec))
      case Some(x) => Some([render(x)])
      case None => None
  }

  /**
   * The corrected range holds the addresses of the endpoints' family from the lower
   * endpoint to the higher, and its first and last entries are the endpoints themselves.
   */
  lemma CorrectedRangeKeepsFamily(a: string, b: string, x: Address, y: Address,
                                  parse: string -> Option<Address>, render: Address -> string)
    requires '-' !in a
    requires parse(Strip(a)) == Some(x) && parse(Strip(b)) == Some(y)
    requires x.version == y.version
    ensures var r := CorrectedExpansion(RangeText(a, b), parse, render);
      var lo := if x.value <= y.value then x else y;
      var hi := if x.value <= y.value then y else x;
      && r.Some?
      && |r.value| == hi.value - lo.value + 1
      && r.value[0] == render(lo) && r.value[|r.value| - 1] == render(hi)
      && forall k :: 0 <= k < |r.value| ==> r.value[k] == render(IpAddress(x.version, lo.value + k))
  {
    SplitRangeText(a, b);
    var lo := if x.value <= y.value then x else y;
    var hi := if x.value <= y.value then y else x;
  }

  /** On IPv4 endpoints the source's expansion and the corrected one agree. */
  lemma CorrectedAgreesOnIpv4(a: string, b: string, x: Address, y: Address,
                              parse: string -> Option<Address>, render: Address -> string)
    requires '-' !in a
    requires parse(Strip(a)) == Some(x) && parse(Strip(b)) == Some(y)
    requires x.version == V4 && y.version == V4
    ensures Expansion(RangeText(a, b), parse, render) == CorrectedExpansion(RangeText(a, b), parse, render)
  {
    SplitRangeText(a, b);
    var lo := if x.value <= y.value then x.value else y.value;
    var hi := if x.value <= y.value then y.value else x.value;
    var s, f := Span(lo, hi, render), FamilySpan(V4, lo, hi, render);
    forall k | 0 <= k < |s| ensures s[k] == f[k] {
      assert IntToAddress(lo + k).value == IpAddress(V4, lo + k);
    }
    assert s == f;
  }

  /**
   * As written, a range of two small IPv6 addresses such as "::1-::2" comes back as
   * IPv4 texts: `ipaddress.ip_address(1)` is 0.0.0.1, not ::1. With `render` injective
   * the result is not the two endpoints' own renderings.
   */
  lemma SmallIpv6RangeTurnsIpv4(a: string, b: string, parse: string -> Option<Address>, render: Address -> string)
    requires '-' !in a
    requires parse(Strip(a)) == Some(IpAddress(V6, 1)) && parse(Strip(b)) == Some(IpAddress(V6, 2))
    requires forall p, q :: render(p) == render(q) ==> p == q
    ensures Expansion(RangeText(a, b), parse, render) == Some([render(IpAddress(V4, 1)), render(IpAddress(V4, 2))])
    ensures Expansion(RangeText(a, b), parse, render) != Some([render(IpAddress(V6, 1)), render(IpAddress(V6, 2))])
    ensures CorrectedExpansion(RangeText(a, b), parse, render) == Some([render(IpAddress(V6, 1)), render(IpAddress(V6, 2))])
  {
    SplitRangeText(a, b);
    var s := Span(1, 2, render);
    assert s[0] == render(IpAddress(V4, 1)) && s[1] == render(IpAddress(V4, 2));
    assert s == [render(IpAddress(V4, 1)), render(IpAddress(V4, 2))];
    assert render(IpAddress(V4, 1)) != render(IpAddress(V6, 1));
    var f := FamilySpan(V6, 1, 2, render);
    assert f[0] == render(IpAddress(V6, 1)) && f[1] == render(IpAddress(V6, 2));
    assert f == [render(IpAddress(V6, 1)), render(IpAddress(V6, 2))];
  }

  /**
   * `_probe_host`: the host paired with the verdict of the connect attempt to it;
   * `isUp` stands for a TCP connect to (host, probe port) within the timeout.
   */
  function ProbeHost(host: string, isUp: string -> bool): (r: (string, bool))
    ensures r.0 == host && r.1 == isUp(host)
  {
    (host, isUp(host))
  }

  /** The table `scan_hosts_parallel` returns: every host's verdict, sorted by host text. */
  function HostTable(hosts: seq<string>, isUp: string -> bool): seq<(string, bool)> {
    StrLeTotalOrder();
    SortByKey(Verdicts(hosts, isUp), StrLe)
  }

  /**
   * `scan_hosts_parallel`. The thread pool is replaced by `completed`, the order in
   * which `as_completed` hands back the futures: one per submitted host, so a
   * permutation of `hosts`, duplicates included. The result does not depend on it.
   */
  method ScanHostsParallel(hosts: seq<string>, isUp: string -> bool, completed: seq<string>)
    returns (r: seq<(string, bool)>)
    requires multiset(completed) == multiset(hosts)
    ensures |r| == |hosts|
    ensures multiset(r) == multiset(Verdicts(hosts, isUp))
    ensures SortedBy(r, StrLe)
    ensures forall i :: 0 <= i < |r| ==> r[i].1 == isUp(r[i].0)
    ensures r == HostTable(hosts, isUp)
  {
    var results: seq<(string, bool)> := [];
    for k := 0 to |completed|
      invariant results == Verdicts(completed[..k], isUp)
    {
      var item := ProbeHost(completed[k], isUp);
      assert completed[..k + 1][..k] == completed[..k];
      results := results + [item];
    }
    assert completed[..|completed|] == completed;
    HostCompletionOrderIrrelevant(completed, hosts, isUp);
    StrLeTotalOrder();
    r := SortByKey(results, StrLe);
    PermutedVerdictsAreOwn(r, hosts, isUp);
  }

  /** Sorting the verdicts collected in any completion order gives the same table. */
  lemma HostCompletionOrderIrrelevant(completed: seq<string>, hosts: seq<string>, isUp: string -> bool)
    requires multiset(completed) == multiset(hosts)
    ensures TotalOrder(StrLe)
    ensures SortByKey(Verdicts(completed, isUp), StrLe) == HostTable(hosts, isUp)
  {
    StrLeTotalOrder();
    VerdictsPermutation(completed, hosts, isUp);
    VerdictsKeyFunctional(completed, isUp);
    SortIndependentOfOrder(Verdicts(completed, isUp), Verdicts(hosts, isUp), StrLe);
  }

  /** Hosts come back in text order: 10.0.0.10 is listed before 10.0.0.2. */
  lemma HostsSortAsText(isUp: string -> bool)
    ensures HostTable(["10.0.0.2", "10.0.0.10"], isUp) ==
      [("10.0.0.10", isUp("10.0.0.10")), ("10.0.0.2", isUp("10.0.0.2"))]
  {
    var given, sorted := ["10.0.0.2", "10.0.0.10"], ["10.0.0.10", "10.0.0.2"];
    var v := Verdicts(sorted, isUp);
    TextOrderedPair(v);
    StrLeTotalOrder();
    SortOfSorted(v, StrLe);
    assert v[0] == ("10.0.0.10", isUp("10.0.0.10")) && v[1] == ("10.0.0.2", isUp("10.0.0.2"));
    assert v == [("10.0.0.10", isUp("10.0.0.10")), ("10.0.0.2", isUp("10.0.0.2"))];
    SwappedPairPermutation(given, sorted);
    HostCompletionOrderIrrelevant(sorted, given, isUp);
  }

  lemma SwappedPairPermutation(given: seq<string>, sorted: seq<string>)
    requires |given| == 2 && sorted == [given[1], given[0]]
    ensures multiset(sorted) == multiset(given)
  {
    assert given == [given[0], given[1]];
  }

  lemma TextOrderedPair(v: seq<(string, bool)>)
    requires |v| == 2 && v[0].0 == "10.0.0.10" && v[1].0 == "10.0.0.2"
    ensures SortedBy(v, StrLe)
  {
    HostOrderIsTextual();
  }
}
