/**
 * The result of probing: every target paired with the oracle's reachability verdict
 * for that same target. The socket connect itself (`is_port_open`, `_probe_host`) is
 * the oracle `probe`, a total function from targets to verdicts.
 */
module Probes {
  import opened Ordering

  /** `[(t, probe(t)) for t in targets]`, in target order. */
  function Verdicts<T>(targets: seq<T>, probe: T -> bool): (r: seq<(T, bool)>)
    ensures |r| == |targets|
    ensures forall i :: 0 <= i < |targets| ==> r[i] == (targets[i], probe(targets[i]))
  {
    if targets == [] then []
    else Verdicts(targets[..|targets| - 1], probe) + [(targets[|targets| - 1], probe(targets[|targets| - 1]))]
  }

  /** A pair occurs once per occurrence of its target, and only with that target's own verdict. */
  lemma {:induction false} VerdictsCount<T>(targets: seq<T>, probe: T -> bool, p: (T, bool))
    ensures multiset(Verdicts(targets, probe))[p] == if p.1 == probe(p.0) then multiset(targets)[p.0] else 0
  {
    if targets != [] {
      var init, last := targets[..|targets| - 1], targets[|targets| - 1];
      VerdictsCount(init, probe, p);
      assert targets == init + [last];
      assert multiset(targets) == multiset(init) + multiset{last};
    }
  }

  /** Probing a permutation of the targets gives a permutation of the verdicts. */
  lemma VerdictsPermutation<T>(a: seq<T>, b: seq<T>, probe: T -> bool)
    requires multiset(a) == multiset(b)
    ensures multiset(Verdicts(a, probe)) == multiset(Verdicts(b, probe))
  {
    forall p ensures multiset(Verdicts(a, probe))[p] == multiset(Verdicts(b, probe))[p] {
      VerdictsCount(a, probe, p);
      VerdictsCount(b, probe, p);
    }
  }

  /** Every target carries one verdict, however often it is repeated. */
  lemma VerdictsKeyFunctional<T>(targets: seq<T>, probe: T -> bool)
    ensures KeyFunctional(Verdicts(targets, probe))
  {
    var r := Verdicts(targets, probe);
    forall x, y | x in r && y in r && x.0 == y.0 ensures x == y {
      var i :| 0 <= i < |r| && r[i] == x;
      var j :| 0 <= j < |r| && r[j] == y;
    }
  }

  /** Any permutation of the verdicts still pairs each target with its own verdict. */
  lemma PermutedVerdictsAreOwn<T>(r: seq<(T, bool)>, targets: seq<T>, probe: T -> bool)
    requires multiset(r) == multiset(Verdicts(targets, probe))
    ensures forall i :: 0 <= i < |r| ==> r[i].1 == probe(r[i].0)
  {
    var v := Verdicts(targets, probe);
    forall i | 0 <= i < |r| ensures r[i].1 == probe(r[i].0) {
      assert r[i] in multiset(v);
      var j :| 0 <= j < |v| && v[j] == r[i];
    }
  }
}
