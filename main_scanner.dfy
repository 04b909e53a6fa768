/**
 * The multithreaded CLI's port-spec parser (`parse_ports`) and its open-ports summary.
 * A spec such as "22,80,443,1000-2000" becomes a sorted list without duplicates.
 */
module MainScanner {
  import opened Wrappers
  import opened Text
  import opened Ordering

  /**
   * The ports one comma-separated token adds to the set. The token is stripped;
   * an empty token adds nothing; `a-b` adds a..b inclusive (nothing when a > b);
   * any other token must be one integer. None is the ValueError `int()` raises.
   */
  function TokenPorts(token: string): Option<set<int>> {
    var t := Strip(token);
    if t == [] then Some({})
    else if '-' in t then
      var (a, b) := SplitOnce(t, '-');
      match (ParseInt(a), ParseInt(b))
      case (Some(lo), Some(hi)) => Some(set n | n in IntRange(lo, hi))
      case _ => None
    else
      match ParseInt(t)
      case Some(n) => Some({n})
      case None => None
  }

  /**
   * The set `out` after the loop has handled `tokens`, each adding `each(token)`;
   * None once a token fails.
   */
  function UnionOf(tokens: seq<string>, each: string -> Option<set<int>>): Option<set<int>> {
    if tokens == [] then Some({})
    else Combine(UnionOf(tokens[..|tokens| - 1], each), each(tokens[|tokens| - 1]))
  }

  /** `out.update(t)` after `out` was built, failing if either side failed. */
  function Combine(x: Option<set<int>>, y: Option<set<int>>): Option<set<int>> {
    if x.Some? && y.Some? then Some(x.value + y.value) else None
  }

  function PortSet(tokens: seq<string>): Option<set<int>> {
    UnionOf(tokens, TokenPorts)
  }

  /** The ports a whole spec denotes. */
  function SpecPorts(spec: string): Option<set<int>> {
    PortSet(Split(spec, ','))
  }

  /** Once a token fails the whole spec fails, whatever follows it. */
  lemma {:induction false} UnionFailsAt(tokens: seq<string>, each: string -> Option<set<int>>, i: nat)
    requires i < |tokens|
    requires each(tokens[i]).None?
    ensures UnionOf(tokens, each) == None
  {
    if i < |tokens| - 1 {
      UnionFailsAt(tokens[..|tokens| - 1], each, i);
    }
  }

  /**
   * `parse_ports(spec)`: None when `int()` fails on some token; otherwise the
   * ports of all tokens, strictly ascending.
   */
  method ParsePorts(spec: string) returns (r: Option<seq<int>>)
    ensures r.Some? <==> SpecPorts(spec).Some?
    ensures r.Some? ==> StrictlyAscending(r.value)
    ensures r.Some? ==> forall n :: n in r.value <==> n in SpecPorts(spec).value
    ensures r.Some? ==> r.value == SortedElements(SpecPorts(spec).value)
  {
    var tokens := Split(spec, ',');
    var out: set<int> := {};
    for i := 0 to |tokens|
      invariant PortSet(tokens[..i]) == Some(out)
    {
      PortSetStep(tokens, i);
      var token := Strip(tokens[i]);
      if token == [] {
        assert TokenPorts(tokens[i]) == Some({});
        assert out + {} == out;
        continue;
      }
      if '-' in token {
        var (a, b) := SplitOnce(token, '-');
        var lo := ParseInt(a);
        if lo.None? {
          UnionFailsAt(tokens, TokenPorts, i);
          return None;
        }
        var hi := ParseInt(b);
        if hi.None? {
          UnionFailsAt(tokens, TokenPorts, i);
          return None;
        }
        assert TokenPorts(tokens[i]) == Some(set n | n in IntRange(lo.value, hi.value));
        out := out + (set n | n in IntRange(lo.value, hi.value));
      } else {
        var n := ParseInt(token);
        if n.None? {
          UnionFailsAt(tokens, TokenPorts, i);
          return None;
        }
        assert TokenPorts(tokens[i]) == Some({n.value});
        out := out + {n.value};
      }
    }
    assert tokens[..|tokens|] == tokens;
    assert SpecPorts(spec) == Some(out);
    r := Some(SortedElements(out));
  }

  /** One more token unions its ports into the set read so far. */
  lemma PortSetStep(tokens: seq<string>, i: nat)
    requires i < |tokens|
    ensures PortSet(tokens[..i + 1]) == Combine(PortSet(tokens[..i]), TokenPorts(tokens[i]))
  {
    assert tokens[..i + 1][..i] == tokens[..i];
  }

  /** What one successful token contributes, in the source's own terms. */
  lemma TokenPortsMeaning(token: string, n: int)
    requires TokenPorts(token).Some?
    ensures var t := Strip(token);
      n in TokenPorts(token).value <==>
        && t != []
        && if '-' in t then
             ParseInt(SplitOnce(t, '-').0).value <= n <= ParseInt(SplitOnce(t, '-').1).value
           else ParseInt(t) == Some(n)
  {
  }

  /** An empty or blank token adds nothing. */
  lemma BlankTokenAddsNothing(token: string)
    requires AllSpace(token)
    ensures TokenPorts(token) == Some({})
  {
    AllSpaceStrip(token);
  }

  /** `lo-hi` adds exactly lo..hi inclusive, and nothing when lo > hi. */
  lemma RangeToken(a: string, b: string, lo: int, hi: int)
    requires '-' !in a
    requires ParseInt(a) == Some(lo) && ParseInt(b) == Some(hi)
    ensures TokenPorts(a + "-" + b) == Some(set n | n in IntRange(lo, hi))
    ensures lo > hi ==> TokenPorts(a + "-" + b) == Some({})
  {
    assert !IsSpace('-');
    var t := Strip(a + "-" + b);
    StripAround(a, '-', b);
    assert t == LStrip(a) + "-" + RStrip(b);
    LStripShape(a);
    assert '-' !in LStrip(a);
    SplitOnceOf(LStrip(a), '-', RStrip(b));
    ParseIntIgnoresStrip(a);
    ParseIntIgnoresStrip(b);
    if lo > hi {
      assert (set n | n in IntRange(lo, hi)) == {};
    }
  }

  /** A leading dash is not a negative port: "-5" splits into "" and "5", and `int("")` fails. */
  lemma NegativePortIsError()
    ensures TokenPorts("-5") == None
  {
    var t := "-5";
    assert !IsSpace('-') && !IsSpace('5');
    LStripUnique([], t);
    assert [] + t == t;
    RStripUnique(t, []);
    assert t + [] == t;
    assert Strip(t) == t;
    SplitOnceOf([], '-', "5");
    assert [] + ['-'] + "5" == t;
    assert ParseInt([]) == None;
  }

  /** Handling more tokens unions in their ports. */
  lemma {:induction false} UnionAppend(a: seq<string>, b: seq<string>, each: string -> Option<set<int>>)
    ensures UnionOf(a + b, each) == Combine(UnionOf(a, each), UnionOf(b, each))
  {
    if b == [] {
      assert a + b == a;
      if UnionOf(a, each).Some? {
        assert UnionOf(a, each).value + {} == UnionOf(a, each).value;
      }
    } else {
      var init, last := b[..|b| - 1], b[|b| - 1];
      assert (a + b)[..|a + b| - 1] == a + init;
      assert (a + b)[|a + b| - 1] == last;
      UnionAppend(a, init, each);
      assert UnionOf(a + b, each) == Combine(UnionOf(a + init, each), each(last));
      assert UnionOf(b, each) == Combine(UnionOf(init, each), each(last));
      CombineAssociative(UnionOf(a, each), UnionOf(init, each), each(last));
    }
  }

  lemma CombineAssociative(x: Option<set<int>>, y: Option<set<int>>, z: Option<set<int>>)
    ensures Combine(Combine(x, y), z) == Combine(x, Combine(y, z))
  {
    if x.Some? && y.Some? && z.Some? {
      assert (x.value + y.value) + z.value == x.value + (y.value + z.value);
    }
  }

  /** The union fails exactly when some token fails. */
  lemma {:induction false} UnionNoneIff(tokens: seq<string>, each: string -> Option<set<int>>)
    ensures UnionOf(tokens, each).None? <==> exists i :: 0 <= i < |tokens| && each(tokens[i]).None?
  {
    if tokens != [] {
      var init := tokens[..|tokens| - 1];
      UnionNoneIff(init, each);
      if exists i :: 0 <= i < |init| && each(init[i]).None? {
        var i :| 0 <= i < |init| && each(init[i]).None?;
        assert tokens[i] == init[i];
      }
      if exists i :: 0 <= i < |tokens| && each(tokens[i]).None? {
        var i :| 0 <= i < |tokens| && each(tokens[i]).None?;
        if i < |init| {
          assert init[i] == tokens[i];
        }
      }
    }
  }

  /** An integer is in the union exactly when some token adds it. */
  lemma {:induction false} UnionMembership(tokens: seq<string>, each: string -> Option<set<int>>, n: int)
    requires UnionOf(tokens, each).Some?
    ensures n in UnionOf(tokens, each).value <==>
      exists i :: 0 <= i < |tokens| && each(tokens[i]).Some? && n in each(tokens[i]).value
  {
    if tokens != [] {
      var init := tokens[..|tokens| - 1];
      UnionMembership(init, each, n);
      if exists i :: 0 <= i < |init| && each(init[i]).Some? && n in each(init[i]).value {
        var i :| 0 <= i < |init| && each(init[i]).Some? && n in each(init[i]).value;
        assert tokens[i] == init[i];
      }
      if exists i :: 0 <= i < |tokens| && each(tokens[i]).Some? && n in each(tokens[i]).value {
        var i :| 0 <= i < |tokens| && each(tokens[i]).Some? && n in each(tokens[i]).value;
        if i < |init| {
          assert init[i] == tokens[i];
        }
      }
    }
  }

  /** The spec fails exactly when `int()` fails on some token. */
  lemma PortSetNoneIff(tokens: seq<string>)
    ensures PortSet(tokens).None? <==> exists i :: 0 <= i < |tokens| && TokenPorts(tokens[i]).None?
  {
    UnionNoneIff(tokens, TokenPorts);
  }

  /** A port is in the result exactly when some token adds it. */
  lemma PortSetMembership(tokens: seq<string>, n: int)
    requires PortSet(tokens).Some?
    ensures n in PortSet(tokens).value <==>
      exists i :: 0 <= i < |tokens| && TokenPorts(tokens[i]).Some? && n in TokenPorts(tokens[i]).value
  {
    UnionMembership(tokens, TokenPorts, n);
  }

  /**
   * Only which tokens occur matters: reordering or repeating tokens, or adding or
   * removing blank ones, leaves the result unchanged.
   */
  lemma PortSetDependsOnTokensOnly(t1: seq<string>, t2: seq<string>)
    requires forall t :: t in t1 && !AllSpace(t) ==> t in t2
    requires forall t :: t in t2 && !AllSpace(t) ==> t in t1
    ensures PortSet(t1) == PortSet(t2)
  {
    PortSetNoneIff(t1);
    PortSetNoneIff(t2);
    if PortSet(t1).None? {
      var i :| 0 <= i < |t1| && TokenPorts(t1[i]).None?;
      NotBlank(t1[i]);
      assert t1[i] in t2;
    } else if PortSet(t2).None? {
      var j :| 0 <= j < |t2| && TokenPorts(t2[j]).None?;
      NotBlank(t2[j]);
    } else {
      forall n ensures n in PortSet(t1).value <==> n in PortSet(t2).value {
        PortSetMembership(t1, n);
        PortSetMembership(t2, n);
        if n in PortSet(t1).value {
          var i :| 0 <= i < |t1| && TokenPorts(t1[i]).Some? && n in TokenPorts(t1[i]).value;
          NotBlank(t1[i]);
          assert t1[i] in t2;
          var j :| 0 <= j < |t2| && t2[j] == t1[i];
        }
        if n in PortSet(t2).value {
          var j :| 0 <= j < |t2| && TokenPorts(t2[j]).Some? && n in TokenPorts(t2[j]).value;
          NotBlank(t2[j]);
          assert t2[j] in t1;
          var i :| 0 <= i < |t1| && t1[i] == t2[j];
        }
      }
      assert PortSet(t1).value == PortSet(t2).value;
    }
  }

  /** A token that fails or adds a port is not blank. */
  lemma NotBlank(token: string)
    requires TokenPorts(token) != Some({})
    ensures !AllSpace(token)
  {
    if AllSpace(token) {
      BlankTokenAddsNothing(token);
    }
  }

  /** A plain decimal token adds just its own value. */
  lemma NumeralToken(n: nat)
    ensures TokenPorts(NatString(n)) == Some({n})
  {
    var t := NatString(n);
    ParseDecimalString(n);
    StripOfTrimmed(t);
    assert '-' !in t by {
      forall i | 0 <= i < |t| ensures t[i] != '-' {
        assert IsDigit(t[i]) || t[i] == '_';
      }
    }
  }

  /** A range of two decimal numerals adds the integers between them. */
  lemma NumeralRangeToken(lo: nat, hi: nat)
    ensures TokenPorts(NatString(lo) + "-" + NatString(hi)) == Some(set n | n in IntRange(lo, hi))
  {
    var a := NatString(lo);
    ParseDecimalString(lo);
    ParseDecimalString(hi);
    assert '-' !in a by {
      forall i | 0 <= i < |a| ensures a[i] != '-' {
        assert IsDigit(a[i]) || a[i] == '_';
      }
    }
    assert !IsSpace('-');
    RangeToken(a, NatString(hi), lo, hi);
  }

  /** `[p for p, open_ in results if open_]`: the open ports, in result order. */
  function OpenPorts(results: seq<(int, bool)>): (r: seq<int>)
    ensures |r| <= |results|
    ensures forall p :: p in r <==> (p, true) in results
  {
    if results == [] then []
    else
      var init, last := results[..|results| - 1], results[|results| - 1];
      assert results == init + [last];
      OpenPorts(init) + (if last.1 then [last.0] else [])
  }

  /** The summary of a concatenation is the concatenation of the summaries. */
  lemma {:induction false} OpenPortsAppend(a: seq<(int, bool)>, b: seq<(int, bool)>)
    ensures OpenPorts(a + b) == OpenPorts(a) + OpenPorts(b)
  {
    if b == [] {
      assert a + b == a;
    } else {
      var init, last := b[..|b| - 1], b[|b| - 1];
      assert (a + b)[..|a + b| - 1] == a + init;
      assert (a + b)[|a + b| - 1] == last;
      OpenPortsAppend(a, init);
      var tail := if last.1 then [last.0] else [];
      assert OpenPorts(a + b) == OpenPorts(a + init) + tail;
      assert OpenPorts(b) == OpenPorts(init) + tail;
    }
  }

  /** A port-sorted result table gives an ascending summary. */
  lemma {:induction false} OpenPortsSorted(results: seq<(int, bool)>)
    requires SortedBy(results, IntLe)
    ensures NonDecreasing(OpenPorts(results))
  {
    if results != [] {
      var init := results[..|results| - 1];
      var last := results[|results| - 1];
      assert SortedBy(init, IntLe);
      OpenPortsSorted(init);
      var ri := OpenPorts(init);
      assert OpenPorts(results) == ri + (if last.1 then [last.0] else []);
      forall i | 0 <= i < |ri| ensures ri[i] <= last.0 {
        assert (ri[i], true) in init;
        var k :| 0 <= k < |init| && init[k] == (ri[i], true);
        assert IntLe(results[k].0, results[|results| - 1].0);
      }
      var r := OpenPorts(results);
      forall i, j | 0 <= i < j < |r| ensures r[i] <= r[j] {
        if j < |ri| {
          assert r[i] == ri[i] && r[j] == ri[j];
          assert ri[i] <= ri[j];
        } else {
          assert r[i] == ri[i] && r[j] == last.0;
        }
      }
    }
  }
}
