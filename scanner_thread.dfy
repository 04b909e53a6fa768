/**
 * Multithreaded port scanning on one host: one task per port, results collected
 * in completion order, then returned sorted by port.
 */
module ScannerThread {
  import opened Ordering
  import opened Probes

  /**
   * `_scan_one`: the submitted port paired with the verdict of the connect attempt
   * to that same port; `isOpen` stands for `is_port_open(host, ·, timeout)`.
   */
  function ScanOne(port: int, isOpen: int -> bool): (r: (int, bool))
    ensures r.0 == port && r.1 == isOpen(port)
  {
    (port, isOpen(port))
  }

  /** The table `threaded_port_scan` returns: every port's verdict, sorted by port. */
  function PortTable(ports: seq<int>, isOpen: int -> bool): seq<(int, bool)> {
    IntLeTotalOrder();
    SortByKey(Verdicts(ports, isOpen), IntLe)
  }

  /**
   * `threaded_port_scan`. The thread pool is replaced by `completed`, the order in
   * which `as_completed` hands back the futures: one per submitted port, so a
   * permutation of `ports`, duplicates included. The result does not depend on it.
   */
  method ThreadedPortScan(ports: seq<int>, isOpen: int -> bool, completed: seq<int>)
    returns (r: seq<(int, bool)>)
    requires multiset(completed) == multiset(ports)
    ensures |r| == |ports|
    ensures multiset(r) == multiset(Verdicts(ports, isOpen))
    ensures SortedBy(r, IntLe)
    ensures forall i :: 0 <= i < |r| ==> r[i].1 == isOpen(r[i].0)
    ensures r == PortTable(ports, isOpen)
  {
    var results: seq<(int, bool)> := [];
    for k := 0 to |completed|
      invariant results == Verdicts(completed[..k], isOpen)
    {
      var item := ScanOne(completed[k], isOpen);
      assert completed[..k + 1][..k] == completed[..k];
      results := results + [item];
    }
    assert completed[..|completed|] == completed;
    CompletionOrderIrrelevant(completed, ports, isOpen);
    IntLeTotalOrder();
    r := SortByKey(results, IntLe);
    PermutedVerdictsAreOwn(r, ports, isOpen);
  }

  /** Sorting the verdicts collected in any completion order gives the same table. */
  lemma CompletionOrderIrrelevant(completed: seq<int>, ports: seq<int>, isOpen: int -> bool)
    requires multiset(completed) == multiset(ports)
    ensures TotalOrder(IntLe)
    ensures SortByKey(Verdicts(completed, isOpen), IntLe) == PortTable(ports, isOpen)
  {
    IntLeTotalOrder();
    VerdictsPermutation(completed, ports, isOpen);
    VerdictsKeyFunctional(completed, isOpen);
    SortIndependentOfOrder(Verdicts(completed, isOpen), Verdicts(ports, isOpen), IntLe);
  }

  /**
   * On ports already in ascending order (what the port-spec parser hands over) the
   * sort changes nothing: the table is the in-order map of the probe.
   */
  lemma PortTableOfAscendingPorts(ports: seq<int>, isOpen: int -> bool)
    requires NonDecreasing(ports)
    ensures PortTable(ports, isOpen) == Verdicts(ports, isOpen)
  {
    IntLeTotalOrder();
    SortOfSorted(Verdicts(ports, isOpen), IntLe);
  }

  /** With ports 80 and 443 open, scanning 22, 80, 443 and 8080 gives this table. */
  lemma TwoOpenPortsScenario(isOpen: int -> bool)
    requires forall p :: isOpen(p) == (p == 80 || p == 443)
    ensures PortTable([22, 80, 443, 8080], isOpen) == [(22, false), (80, true), (443, true), (8080, false)]
  {
    var ports := [22, 80, 443, 8080];
    PortTableOfAscendingPorts(ports, isOpen);
    var v := Verdicts(ports, isOpen);
    assert v[0] == (22, false) && v[1] == (80, true) && v[2] == (443, true) && v[3] == (8080, false);
  }
}
