/**
 * The single-threaded scanner: a sequential scan of a port list, and the looser
 * port-spec parser of its command line, which keeps order and duplicates and does
 * not skip empty parts.
 */
module SingleScanner {
  import opened Wrappers
  import opened Text
  import opened Ordering
  import opened Probes
  import MainScanner

  /**
   * `scan_ports`: one entry per port, in the order given, each paired with the
   * verdict for that same port; `isOpen` stands for `is_port_open(host, ·, timeout)`.
   */
  method ScanPorts(ports: seq<int>, isOpen: int -> bool) returns (results: seq<(int, bool)>)
    ensures |results| == |ports|
    ensures forall i :: 0 <= i < |ports| ==> results[i] == (ports[i], isOpen(ports[i]))
    ensures results == Verdicts(ports, isOpen)
  {
    results := [];
    for k := 0 to |ports|
      invariant results == Verdicts(ports[..k], isOpen)
    {
      assert ports[..k + 1][..k] == ports[..k];
      var open := isOpen(ports[k]);
      results := results + [(ports[k], open)];
    }
    assert ports[..|ports|] == ports;
  }

  /**
   * The ports one comma-separated part appends, unstripped: `a-b` appends a..b in
   * order (nothing when a > b), any other part must be one integer. None is the
   * ValueError `int()` raises.
   */
  function PartPorts(part: string): Option<seq<int>> {
    if '-' in part then
      var (a, b) := SplitOnce(part, '-');
      match (ParseInt(a), ParseInt(b))
      case (Some(lo), Some(hi)) => Some(IntRange(lo, hi))
      case _ => None
    else
      match ParseInt(part)
      case Some(n) => Some([n])
      case None => None
  }

  /** `out.extend(...)` after `out` was built, failing if either side failed. */
  function Extend(x: Option<seq<int>>, y: Option<seq<int>>): Option<seq<int>> {
    if x.Some? && y.Some? then Some(x.value + y.value) else None
  }

  /** The list `out` after the loop has handled `parts`; None once a part fails. */
  function CliPorts(parts: seq<string>): Option<seq<int>> {
    if parts == [] then Some([])
    else Extend(CliPorts(parts[..|parts| - 1]), PartPorts(parts[|parts| - 1]))
  }

  /** The ports a whole `--ports` argument denotes. */
  function CliSpecPorts(s: string): Option<seq<int>> {
    CliPorts(Split(s, ','))
  }

  /** Once a part fails the whole argument fails, whatever follows it. */
  lemma {:induction false} CliFailsAt(parts: seq<string>, i: nat)
    requires i < |parts|
    requires PartPorts(parts[i]).None?
    ensures CliPorts(parts) == None
  {
    if i < |parts| - 1 {
      CliFailsAt(parts[..|parts| - 1], i);
    }
  }

  /** The command line's `parse_ports(s)`: None when `int()` fails on some part. */
  method ParsePortsCli(s: string) returns (r: Option<seq<int>>)
    ensures r == CliSpecPorts(s)
  {
    var parts := Split(s, ',');
    var out: seq<int> := [];
    for i := 0 to |parts|
      invariant CliPorts(parts[..i]) == Some(out)
    {
      assert parts[..i + 1][..i] == parts[..i];
      assert CliPorts(parts[..i + 1]) == Extend(CliPorts(parts[..i]), PartPorts(parts[i]));
      var part := parts[i];
      if '-' in part {
        var (a, b) := SplitOnce(part, '-');
        var lo := ParseInt(a);
        if lo.None? {
          CliFailsAt(parts, i);
          return None;
        }
        var hi := ParseInt(b);
        if hi.None? {
          CliFailsAt(parts, i);
          return None;
        }
        out := out + IntRange(lo.value, hi.value);
      } else {
        var n := ParseInt(part);
        if n.None? {
          CliFailsAt(parts, i);
          return None;
        }
        out := out + [n.value];
      }
    }
    assert parts[..|parts|] == parts;
    r := Some(out);
  }

  /**
   * The parser neither sorts nor de-duplicates: the ports of a concatenation of
   * parts are the ports of the first, followed by those of the second.
   */
  lemma {:induction false} CliPortsAppend(a: seq<string>, b: seq<string>)
    ensures CliPorts(a + b) == Extend(CliPorts(a), CliPorts(b))
  {
    if b == [] {
      assert a + b == a;
      if CliPorts(a).Some? {
        assert CliPorts(a).value + [] == CliPorts(a).value;
      }
    } else {
      var init, last := b[..|b| - 1], b[|b| - 1];
      assert (a + b)[..|a + b| - 1] == a + init;
      assert (a + b)[|a + b| - 1] == last;
      CliPortsAppend(a, init);
      assert CliPorts(a + b) == Extend(CliPorts(a + init), PartPorts(last));
      assert CliPorts(b) == Extend(CliPorts(init), PartPorts(last));
      ExtendAssociative(CliPorts(a), CliPorts(init), PartPorts(last));
    }
  }

  lemma ExtendAssociative(x: Option<seq<int>>, y: Option<seq<int>>, z: Option<seq<int>>)
    ensures Extend(Extend(x, y), z) == Extend(x, Extend(y, z))
  {
    if x.Some? && y.Some? && z.Some? {
      assert (x.value + y.value) + z.value == x.value + (y.value + z.value);
    }
  }

  /** Giving the same parts twice gives every port twice, in the same order. */
  lemma RepeatedPartsRepeatPorts(parts: seq<string>, xs: seq<int>)
    requires CliPorts(parts) == Some(xs)
    ensures CliPorts(parts + parts) == Some(xs + xs)
  {
    CliPortsAppend(parts, parts);
  }

  /** `a-b` appends a, a + 1, ..., b in order, and nothing when a > b. */
  lemma RangePart(a: string, b: string, lo: int, hi: int)
    requires '-' !in a
    requires ParseInt(a) == Some(lo) && ParseInt(b) == Some(hi)
    ensures PartPorts(a + "-" + b) == Some(IntRange(lo, hi))
    ensures forall k :: 0 <= k < |PartPorts(a + "-" + b).value| ==> PartPorts(a + "-" + b).value[k] == lo + k
    ensures lo > hi ==> PartPorts(a + "-" + b) == Some([])
  {
    SplitOnceOf(a, '-', b);
    assert a + ['-'] + b == a + "-" + b;
  }

  /** An empty or blank part is an error: it is not skipped, and `int("")` fails. */
  lemma BlankPartIsError(part: string)
    requires AllSpace(part)
    ensures PartPorts(part) == None
  {
    assert '-' !in part by {
      assert !IsSpace('-');
    }
    ParseIntOfSpace(part);
  }

  /**
   * Where the two parsers part ways on blank parts: a blank part makes this one fail,
   * while the multithreaded CLI's parser behaves as if the part were not there.
   */
  lemma BlankPartContrast(parts: seq<string>, i: nat)
    requires i < |parts| && AllSpace(parts[i])
    ensures CliPorts(parts) == None
    ensures MainScanner.PortSet(parts) == MainScanner.PortSet(parts[..i] + parts[i + 1..])
  {
    BlankPartIsError(parts[i]);
    CliFailsAt(parts, i);
    var rest := parts[..i] + parts[i + 1..];
    SameNonBlankParts(parts, i);
    MainScanner.PortSetDependsOnTokensOnly(parts, rest);
  }

  /** Removing a blank entry keeps every non-blank one, and adds none. */
  lemma SameNonBlankParts(parts: seq<string>, i: nat)
    requires i < |parts| && AllSpace(parts[i])
    ensures var rest := parts[..i] + parts[i + 1..];
      && (forall t :: t in parts && !AllSpace(t) ==> t in rest)
      && (forall t :: t in rest && !AllSpace(t) ==> t in parts)
  {
    var rest := parts[..i] + parts[i + 1..];
    forall t | t in parts && !AllSpace(t) ensures t in rest {
      var j :| 0 <= j < |parts| && parts[j] == t;
      RemovedIndex(parts, i, if j < i then j else j - 1);
    }
    forall t | t in rest && !AllSpace(t) ensures t in parts {
      var j :| 0 <= j < |rest| && rest[j] == t;
      RemovedIndex(parts, i, j);
    }
  }

  /**
   * The two parsers also part ways on U+001C: the multithreaded CLI's parser strips
   * it and reads port 5, while this one hands it to `int()`, which does not skip it.
   */
  lemma SeparatorPartContrast()
    ensures PartPorts("\U{1c}5") == None
    ensures MainScanner.TokenPorts("\U{1c}5") == Some({5})
  {
    SeparatorNotSkippedByInt();
    assert '-' !in "\U{1c}5";
    assert '-' !in "5";
  }

  /** Where the entries of a list with one entry removed come from. */
  lemma RemovedIndex(parts: seq<string>, i: nat, j: nat)
    requires i < |parts| && j < |parts| - 1
    ensures var rest := parts[..i] + parts[i + 1..];
      |rest| == |parts| - 1 && rest[j] == parts[if j < i then j else j + 1]
  {
  }

  /** How many ports one part appends: 1 for a plain integer, max(0, b - a + 1) for `a-b`. */
  function PartCount(part: string): nat {
    if '-' in part then
      var (a, b) := SplitOnce(part, '-');
      match (ParseInt(a), ParseInt(b))
      case (Some(lo), Some(hi)) => if hi < lo then 0 else hi - lo + 1
      case _ => 0
    else 1
  }

  /** The sum of the part counts. */
  function TotalCount(parts: seq<string>): nat {
    if parts == [] then 0 else TotalCount(parts[..|parts| - 1]) + PartCount(parts[|parts| - 1])
  }

  /** The length of the list is the sum of what each part appends. */
  lemma {:induction false} CliPortsLength(parts: seq<string>)
    requires CliPorts(parts).Some?
    ensures |CliPorts(parts).value| == TotalCount(parts)
  {
    if parts != [] {
      CliPortsLength(parts[..|parts| - 1]);
    }
  }

  /** The elements of a list, as a set. */
  function Elements(xs: seq<int>): (r: set<int>)
    ensures forall n :: n in r <==> n in xs
  {
    set n | n in xs
  }

  /**
   * A part this parser accepts adds to the other parser's set exactly the ports it
   * appends here: stripping first changes nothing on a part `int()` accepts.
   */
  lemma PartAgreesWithToken(part: string)
    requires PartPorts(part).Some?
    ensures MainScanner.TokenPorts(part) == Some(Elements(PartPorts(part).value))
  {
    if '-' in part {
      var (a, b) := SplitOnce(part, '-');
      assert part == a + "-" + b;
      assert !IsSpace('-');
      MainScanner.RangeToken(a, b, ParseInt(a).value, ParseInt(b).value);
    } else {
      var t := Strip(part);
      ParseIntIgnoresStrip(part);
      LStripShape(part);
      RStripShape(LStrip(part));
      assert '-' !in LStrip(part);
      assert '-' !in t;
      assert Elements([ParseInt(part).value]) == {ParseInt(part).value};
    }
  }

  /**
   * Whenever this parser accepts a list of parts, the multithreaded CLI's parser
   * accepts it too and yields the same ports, de-duplicated.
   */
  lemma {:induction false} CliAgreesWithMain(parts: seq<string>)
    requires CliPorts(parts).Some?
    ensures MainScanner.PortSet(parts) == Some(Elements(CliPorts(parts).value))
  {
    if parts != [] {
      var init, last := parts[..|parts| - 1], parts[|parts| - 1];
      CliAgreesWithMain(init);
      PartAgreesWithToken(last);
      assert CliPorts(parts) == Extend(CliPorts(init), PartPorts(last));
      assert MainScanner.PortSet(parts) == MainScanner.Combine(MainScanner.PortSet(init), MainScanner.TokenPorts(last));
      var xs, ys := CliPorts(init).value, PartPorts(last).value;
      assert CliPorts(parts).value == xs + ys;
      assert MainScanner.PortSet(init) == Some(Elements(xs));
      assert MainScanner.TokenPorts(last) == Some(Elements(ys));
      assert Elements(xs + ys) == Elements(xs) + Elements(ys);
    } else {
      assert Elements([]) == {};
    }
  }
}
