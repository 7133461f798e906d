/** What a run of loopRoutes reports, stated over the whole configuration:
    which mode returns what, which targets stop the run, which addresses are
    probed and in what order, and which addresses produce a record. */
module RunProperties {
  import opened Options
  import opened Ipv4
  import opened Prefixes
  import opened RouteConfig
  import opened Expectation
  import opened RouteCheck

  /** The records of all probes, in visiting order, halts ignored. */
  function Records(steps: seq<Step>): seq<Record> {
    if steps == [] then []
    else (if steps[0].Probe? && steps[0].record.Some? then [steps[0].record.value] else []) + Records(steps[1..])
  }

  /** The cause of the first halt, if any. */
  function FirstHalt(steps: seq<Step>): (r: Option<AbortCause>)
    ensures r.None? <==> forall k :: 0 <= k < |steps| ==> steps[k].Probe?
    ensures r.Some? ==> exists k :: 0 <= k < |steps| && steps[k] == Halt(r.value) && forall i :: 0 <= i < k ==> steps[i].Probe?
  {
    if steps == [] then None
    else if steps[0].Halt? then Some(steps[0].cause)
    else
      var h := FirstHalt(steps[1..]);
      assert forall k :: 1 <= k < |steps| ==> steps[k] == steps[1..][k - 1];
      h
  }

  /** A step that ends a fail-fast run: a halt or a probe with a record. */
  predicate Notable(s: Step) {
    s.Halt? || s.record.Some?
  }

  /** The index of the first notable step, if any. */
  function FirstNotable(steps: seq<Step>): (r: Option<nat>)
    ensures r.None? <==> forall k :: 0 <= k < |steps| ==> !Notable(steps[k])
    ensures r.Some? ==> r.value < |steps| && Notable(steps[r.value]) && forall i :: 0 <= i < r.value ==> !Notable(steps[i])
  {
    if steps == [] then None
    else if Notable(steps[0]) then Some(0)
    else
      var n := FirstNotable(steps[1..]);
      assert forall k :: 1 <= k < |steps| ==> steps[k] == steps[1..][k - 1];
      if n.None? then None else Some(n.value + 1)
  }

  /** Collect-all mode: the run stops with the first halt, discarding every
      record found so far; without a halt it reports every record in order. */
  lemma {:induction false} FoldCollectAll(steps: seq<Step>, acc: seq<Record>)
    ensures Fold(steps, false, acc) ==
      if FirstHalt(steps).Some? then Aborted(FirstHalt(steps).value) else Done(acc + Records(steps))
  {
    if steps != [] {
      FoldCollectAll(steps[1..], if steps[0].Probe? && steps[0].record.Some? then acc + [steps[0].record.value] else acc);
      if steps[0].Probe? && steps[0].record.Some? {
        assert acc + [steps[0].record.value] + Records(steps[1..]) == acc + Records(steps);
      }
    }
  }

  /** Fail-fast mode: the run ends at the first notable step, with at most
      one record. */
  lemma {:induction false} FoldFailFast(steps: seq<Step>, acc: seq<Record>)
    ensures FirstNotable(steps).None? ==> Fold(steps, true, acc) == Done(acc)
    ensures FirstNotable(steps).Some? && steps[FirstNotable(steps).value].Halt? ==>
      Fold(steps, true, acc) == Aborted(steps[FirstNotable(steps).value].cause)
    ensures FirstNotable(steps).Some? && steps[FirstNotable(steps).value].Probe? ==>
      Fold(steps, true, acc) == Done(acc + [steps[FirstNotable(steps).value].record.value])
  {
    if steps != [] && !Notable(steps[0]) {
      FoldFailFast(steps[1..], acc);
      assert forall k :: 1 <= k < |steps| ==> steps[k] == steps[1..][k - 1];
    }
  }

  /** Fail-fast mode adds at most one record, and an abort is the first halt. */
  lemma {:induction false} FailFastBounds(steps: seq<Step>, acc: seq<Record>)
    ensures Fold(steps, true, acc).Aborted? ==> FirstHalt(steps) == Some(Fold(steps, true, acc).cause)
    ensures Fold(steps, true, acc).Done? ==> |Fold(steps, true, acc).records| <= |acc| + 1
  {
    if steps != [] && steps[0].Probe? && steps[0].record.None? {
      FailFastBounds(steps[1..], acc);
      assert forall k :: 1 <= k < |steps| ==> steps[k] == steps[1..][k - 1];
    }
  }

  /** Without a halt, fail-fast reports exactly the first record collect-all
      would report, and nothing when collect-all reports nothing. */
  lemma {:induction false} FailFastIsFirstRecord(steps: seq<Step>)
    requires FirstHalt(steps).None?
    ensures Fold(steps, true, []) == Done(if Records(steps) == [] then [] else [Records(steps)[0]])
  {
    if steps != [] {
      assert FirstHalt(steps[1..]).None? by {
        assert forall k :: 0 <= k < |steps[1..]| ==> steps[1..][k] == steps[k + 1];
      }
      if steps[0].record.None? {
        FailFastIsFirstRecord(steps[1..]);
      }
    }
  }

  lemma {:induction false} RecordsAppend(a: seq<Step>, b: seq<Step>)
    ensures Records(a + b) == Records(a) + Records(b)
  {
    if a != [] {
      assert (a + b)[0] == a[0] && (a + b)[1..] == a[1..] + b;
      RecordsAppend(a[1..], b);
    } else {
      assert a + b == b;
    }
  }

  /** A record is in the report exactly when some probe produced it. */
  lemma {:induction false} RecordsMember(steps: seq<Step>, rec: Record)
    ensures rec in Records(steps) <==> exists k :: 0 <= k < |steps| && steps[k].Probe? && steps[k].record == Some(rec)
  {
    if steps != [] {
      RecordsMember(steps[1..], rec);
      if exists k :: 0 <= k < |steps| && steps[k].Probe? && steps[k].record == Some(rec) {
        var k :| 0 <= k < |steps| && steps[k].Probe? && steps[k].record == Some(rec);
        if k > 0 {
          assert steps[1..][k - 1] == steps[k];
        }
      }
      if exists k :: 0 <= k < |steps[1..]| && steps[1..][k].Probe? && steps[1..][k].record == Some(rec) {
        var k :| 0 <= k < |steps[1..]| && steps[1..][k].Probe? && steps[1..][k].record == Some(rec);
        assert steps[k + 1] == steps[1..][k];
      }
    }
  }

  /** A target that does not parse as a prefix, after "/32" is appended to a
      bare address. */
  predicate Malformed(route: Route) {
    ParsePrefix(Normalize(route.ip)).None?
  }

  /** The record an address produces, if its check fails. */
  function AddrRecord(route: Route, a: Addr, host: Host): Option<Record> {
    var v := CheckAddr(a, route.expects, host);
    if v == Pass then None else Some(Record(route.name, Normalize(route.ip), v.cause))
  }

  /** For an IPv4 target, re-parsing an address's text always gives the
      address back, so the not-IPv4 exit of loopRoutes is never taken: every
      visit is a probe of the address itself. */
  lemma AddrStepIsProbe(route: Route, a: Addr, host: Host)
    ensures AddrStep(route, Normalize(route.ip), a, host) == Probe(a, AddrRecord(route, a, host))
  {
    ParseFormatAddr(a);
  }

  /** A route with a malformed target stops the run; any other route probes
      every address of its prefix, lowest first. */
  lemma RouteStepsShape(route: Route, host: Host)
    ensures Malformed(route) ==> RouteSteps(route, host) == [Halt(BadTarget)]
    ensures !Malformed(route) ==>
      var p := ParsePrefix(Normalize(route.ip)).value;
      |RouteSteps(route, host)| == |Block(p)| &&
      forall k :: 0 <= k < |Block(p)| ==> RouteSteps(route, host)[k] == Probe(Block(p)[k], AddrRecord(route, Block(p)[k], host))
  {
    if !Malformed(route) {
      var p := ParsePrefix(Normalize(route.ip)).value;
      forall k | 0 <= k < |Block(p)|
        ensures RouteSteps(route, host)[k] == Probe(Block(p)[k], AddrRecord(route, Block(p)[k], host))
      {
        AddrStepIsProbe(route, Block(p)[k], host);
      }
    }
  }

  /** The addresses a well-formed route probes are exactly its prefix's,
      in strictly ascending order. */
  lemma RouteProbesAscending(route: Route, host: Host)
    requires !Malformed(route)
    ensures forall k :: 0 <= k < |RouteSteps(route, host)| ==> RouteSteps(route, host)[k].Probe?
    ensures forall a :: a in ProbedAddrs(RouteSteps(route, host)) <==> InPrefix(ParsePrefix(Normalize(route.ip)).value, a)
    ensures forall i, j :: 0 <= i < j < |RouteSteps(route, host)| ==> RouteSteps(route, host)[i].addr < RouteSteps(route, host)[j].addr
  {
    var p := ParsePrefix(Normalize(route.ip)).value;
    var steps := RouteSteps(route, host);
    RouteStepsShape(route, host);
    ProbedAddrsOfProbes(steps, Block(p));
    BlockIsPrefixContents(p);
  }

  lemma ProbedAddrsOfProbes(steps: seq<Step>, addrs: seq<Addr>)
    requires |steps| == |addrs|
    requires forall k :: 0 <= k < |steps| ==> steps[k].Probe? && steps[k].addr == addrs[k]
    ensures ProbedAddrs(steps) == addrs
  {
  }

  /** The address of every probe (halts give none). */
  function ProbedAddrs(steps: seq<Step>): (r: seq<int>)
    ensures (forall k :: 0 <= k < |steps| ==> steps[k].Probe?) ==>
      |r| == |steps| && forall k :: 0 <= k < |steps| ==> r[k] == steps[k].addr
  {
    if steps == [] then []
    else (if steps[0].Probe? then [steps[0].addr] else []) + ProbedAddrs(steps[1..])
  }

  /** The records one well-formed route contributes: one for each address of
      its prefix whose check fails, naming the route, its target and the
      cause. */
  lemma RouteRecordsMeaning(route: Route, host: Host, rec: Record)
    requires !Malformed(route)
    ensures var p := ParsePrefix(Normalize(route.ip)).value;
      rec in Records(RouteSteps(route, host)) <==>
      exists a :: InPrefix(p, a) && AddrRecord(route, a, host) == Some(rec)
  {
    var p := ParsePrefix(Normalize(route.ip)).value;
    RouteStepsShape(route, host);
    RecordsOfProbes(RouteSteps(route, host), Block(p), route, host, rec);
    BlockIsPrefixContents(p);
  }

  lemma RecordsOfProbes(steps: seq<Step>, addrs: seq<Addr>, route: Route, host: Host, rec: Record)
    requires |steps| == |addrs|
    requires forall k :: 0 <= k < |addrs| ==> steps[k] == Probe(addrs[k], AddrRecord(route, addrs[k], host))
    ensures rec in Records(steps) <==> exists a :: a in addrs && AddrRecord(route, a, host) == Some(rec)
  {
    RecordsMember(steps, rec);
    if rec in Records(steps) {
      var k :| 0 <= k < |steps| && steps[k].Probe? && steps[k].record == Some(rec);
      assert addrs[k] in addrs && AddrRecord(route, addrs[k], host) == Some(rec);
    }
    if exists a :: a in addrs && AddrRecord(route, a, host) == Some(rec) {
      var a :| a in addrs && AddrRecord(route, a, host) == Some(rec);
      var k :| 0 <= k < |addrs| && addrs[k] == a;
      assert steps[k].Probe? && steps[k].record == Some(rec);
    }
  }

  /** The records of the failing addresses among addrs, in their order. */
  function FailingRecords(route: Route, addrs: seq<Addr>, host: Host): seq<Record> {
    if addrs == [] then []
    else
      (if AddrRecord(route, addrs[0], host).Some? then [AddrRecord(route, addrs[0], host).value] else [])
      + FailingRecords(route, addrs[1..], host)
  }

  lemma {:induction false} RecordsOfProbesInOrder(steps: seq<Step>, addrs: seq<Addr>, route: Route, host: Host)
    requires |steps| == |addrs|
    requires forall k :: 0 <= k < |addrs| ==> steps[k] == Probe(addrs[k], AddrRecord(route, addrs[k], host))
    ensures Records(steps) == FailingRecords(route, addrs, host)
  {
    if steps != [] {
      assert forall k :: 0 <= k < |addrs[1..]| ==> steps[1..][k] == steps[k + 1] && addrs[1..][k] == addrs[k + 1];
      RecordsOfProbesInOrder(steps[1..], addrs[1..], route, host);
    }
  }

  /** The records of one well-formed route follow its addresses in ascending
      order: one per failing address, nothing for the others. */
  lemma RouteRecordsInOrder(route: Route, host: Host)
    requires !Malformed(route)
    ensures Records(RouteSteps(route, host)) == FailingRecords(route, Block(ParsePrefix(Normalize(route.ip)).value), host)
  {
    var p := ParsePrefix(Normalize(route.ip)).value;
    RouteStepsShape(route, host);
    RecordsOfProbesInOrder(RouteSteps(route, host), Block(p), route, host);
  }

  /** A bare address is checked as the one-address prefix "<addr>/32". */
  lemma BareTargetOneAddress(route: Route, host: Host, a: Addr)
    requires '/' !in route.ip && ParseAddr(route.ip) == Some(a)
    ensures Normalize(route.ip) == route.ip + "/32"
    ensures RouteSteps(route, host) == [Probe(a, AddrRecord(route, a, host))]
  {
    ParseBareAddress(route.ip);
    SingleAddressBlock(Prefix(a, 32));
    RouteStepsShape(route, host);
  }

  /** An address the host cannot route is reported as a mismatch of its
      route; it does not stop the run. */
  lemma ResolverFailureRecorded(route: Route, a: Addr, host: Host)
    requires host.route(a).None?
    ensures AddrStep(route, Normalize(route.ip), a, host) == Probe(a, Some(Record(route.name, Normalize(route.ip), RouteLookupFailed)))
  {
    AddrStepIsProbe(route, a, host);
  }

  lemma {:induction false} FirstHaltAppend(a: seq<Step>, b: seq<Step>)
    ensures FirstHalt(a + b) == if FirstHalt(a).Some? then FirstHalt(a) else FirstHalt(b)
  {
    if a != [] {
      assert (a + b)[0] == a[0] && (a + b)[1..] == a[1..] + b;
      FirstHaltAppend(a[1..], b);
    } else {
      assert a + b == b;
    }
  }

  /** Within one route, the only halt is a malformed target. */
  lemma RouteFirstHalt(route: Route, host: Host)
    ensures FirstHalt(RouteSteps(route, host)) == if Malformed(route) then Some(BadTarget) else None
  {
    RouteStepsShape(route, host);
  }

  /** The only halt is a malformed target: the first one stops the run. */
  lemma {:induction false} HaltIffMalformed(routes: seq<Route>, host: Host)
    ensures FirstHalt(Steps(routes, host)) ==
      if exists i :: 0 <= i < |routes| && Malformed(routes[i]) then Some(BadTarget) else None
  {
    if routes != [] {
      var head := RouteSteps(routes[0], host);
      var tail := Steps(routes[1..], host);
      assert Steps(routes, host) == head + tail;
      RouteFirstHalt(routes[0], host);
      FirstHaltAppend(head, tail);
      HaltIffMalformed(routes[1..], host);
      AnyMalformedCons(routes);
    }
  }

  lemma AnyMalformedCons(routes: seq<Route>)
    requires routes != []
    ensures (exists i :: 0 <= i < |routes| && Malformed(routes[i])) <==>
      Malformed(routes[0]) || exists i :: 0 <= i < |routes[1..]| && Malformed(routes[1..][i])
  {
    if exists i :: 0 <= i < |routes[1..]| && Malformed(routes[1..][i]) {
      var i :| 0 <= i < |routes[1..]| && Malformed(routes[1..][i]);
      assert routes[1..][i] == routes[i + 1];
    }
    if exists i :: 0 <= i < |routes| && Malformed(routes[i]) {
      var i :| 0 <= i < |routes| && Malformed(routes[i]);
      if i > 0 {
        assert routes[1..][i - 1] == routes[i];
      }
    }
  }

  /** The records of a run come route by route, in configuration order:
      those of the first route, then those of the rest. */
  lemma {:induction false} RecordsByRoute(routes: seq<Route>, host: Host, rec: Record)
    ensures routes != [] ==>
      Records(Steps(routes, host)) == Records(RouteSteps(routes[0], host)) + Records(Steps(routes[1..], host))
    ensures rec in Records(Steps(routes, host)) <==>
      exists i :: 0 <= i < |routes| && rec in Records(RouteSteps(routes[i], host))
  {
    if routes != [] {
      RecordsAppend(RouteSteps(routes[0], host), Steps(routes[1..], host));
      RecordsByRoute(routes[1..], host, rec);
      if exists i :: 0 <= i < |routes[1..]| && rec in Records(RouteSteps(routes[1..][i], host)) {
        var i :| 0 <= i < |routes[1..]| && rec in Records(RouteSteps(routes[1..][i], host));
        assert rec in Records(RouteSteps(routes[i + 1], host));
      }
      if exists i :: 0 <= i < |routes| && rec in Records(RouteSteps(routes[i], host)) {
        var i :| 0 <= i < |routes| && rec in Records(RouteSteps(routes[i], host));
        if i > 0 {
          assert routes[1..][i - 1] == routes[i];
        }
      }
    }
  }

  /** Collect-all mode: one malformed target anywhere aborts the run and
      discards every record; otherwise every record is returned. */
  lemma RunCollectAll(config: Config, host: Host)
    requires !config.failFast
    ensures Run(config, host) ==
      if exists i :: 0 <= i < |config.route| && Malformed(config.route[i]) then Aborted(BadTarget)
      else Done(Records(Steps(config.route, host)))
  {
    FoldCollectAll(Steps(config.route, host), []);
    HaltIffMalformed(config.route, host);
  }

  /** Fail-fast mode: at most one record; with no malformed target it is the
      first record collect-all mode would report. */
  lemma RunFailFast(config: Config, host: Host)
    requires config.failFast
    ensures Run(config, host).Aborted? ==> Run(config, host).cause == BadTarget
    ensures Run(config, host).Done? ==> |Run(config, host).records| <= 1
    ensures (forall i :: 0 <= i < |config.route| ==> !Malformed(config.route[i])) ==>
      var all := Records(Steps(config.route, host));
      Run(config, host) == Done(if all == [] then [] else [all[0]])
  {
    var steps := Steps(config.route, host);
    FailFastBounds(steps, []);
    HaltIffMalformed(config.route, host);
    if FirstHalt(steps).None? {
      FailFastIsFirstRecord(steps);
    }
  }
}
