/** Checking every configured route: `checkIpRoute` and `loopRoutes` in
    route.go.

    The host is given as two oracles: the kernel's route decision for an
    address (`Router.router.Route`, which may fail) and the interface table
    (`net.InterfaceByName`). Both are fixed for one run.

    The specification of a run is built in two stages. `Steps` lists, route
    by route and address by address in the order loopRoutes visits them,
    what each visit yields: a halt (a bad target or an address that is not
    IPv4) or a probe that passes or produces one record. `Fold` then reads
    the steps from the first, stopping at a halt, and under fail-fast also at
    the first record. */
module RouteCheck {
  import opened Options
  import opened Ipv4
  import opened Prefixes
  import opened RouteConfig
  import opened Expectation

  datatype Host = Host(route: Addr -> Option<RouteOutcome>, interfaceByName: string -> InterfaceLookup)

  /** One mismatch report: the route's name, its target after normalisation
      and what went wrong (route.go:167). */
  datatype Record = Record(name: string, ip: string, cause: Mismatch)

  /** Why a run stopped without a report: the target does not parse as a
      prefix (route.go:146-149), or an address is not IPv4 (route.go:160-163). */
  datatype AbortCause = BadTarget | NotIPv4

  /** The pair loopRoutes returns: Aborted is (err, nil); Done(records) is
      (nil, records), with Done([]) for (nil, nil). */
  datatype RunResult = Aborted(cause: AbortCause) | Done(records: seq<Record>)

  datatype Step = Halt(cause: AbortCause) | Probe(addr: Addr, record: Option<Record>)

  /** The verdict checkIpRoute gives for one address. */
  function CheckAddr(ipv4: Addr, expects: seq<RouteExpect>, host: Host): Verdict {
    match host.route(ipv4)
    case None => Fail(RouteLookupFailed)
    case Some(o) => ExpectVerdict(o, expects, host.interfaceByName)
  }

  /** checkIpRoute (route.go:121-133): a failed route lookup is returned as an
      error like any mismatch; otherwise the clauses are matched against the
      route the host chose. */
  method CheckIpRoute(ipv4: Addr, expects: seq<RouteExpect>, host: Host) returns (r: Verdict)
    ensures host.route(ipv4).None? ==> r == Fail(RouteLookupFailed)
    ensures host.route(ipv4).Some? ==> r == ExpectVerdict(host.route(ipv4).value, expects, host.interfaceByName)
  {
    var found := host.route(ipv4);
    if found.None? {
      return Fail(RouteLookupFailed);
    }
    r := DoExpect(found.value, expects, host.interfaceByName);
  }

  /** A target without '/' is taken as a single address (route.go:140-144). */
  function Normalize(ip: string): string {
    if '/' !in ip then ip + "/32" else ip
  }

  function AddrStep(route: Route, target: string, a: Addr, host: Host): Step {
    match ParseIp(FormatAddr(a))
    case None => Halt(NotIPv4)
    case Some(ipv4) =>
      var v := CheckAddr(ipv4, route.expects, host);
      Probe(ipv4, if v == Pass then None else Some(Record(route.name, target, v.cause)))
  }

  /** What visiting one configured route yields, in order. */
  function RouteSteps(route: Route, host: Host): seq<Step> {
    var target := Normalize(route.ip);
    match ParsePrefix(target)
    case None => [Halt(BadTarget)]
    case Some(p) =>
      var ips := Block(p);
      seq(|ips|, j requires 0 <= j < |ips| => AddrStep(route, target, ips[j], host))
  }

  function Steps(routes: seq<Route>, host: Host): seq<Step> {
    if routes == [] then [] else RouteSteps(routes[0], host) + Steps(routes[1..], host)
  }

  /** Reads the steps from the first, with acc the records collected so far. */
  function Fold(steps: seq<Step>, failFast: bool, acc: seq<Record>): RunResult {
    if steps == [] then Done(acc)
    else
      match steps[0]
      case Halt(c) => Aborted(c)
      case Probe(_, None) => Fold(steps[1..], failFast, acc)
      case Probe(_, Some(rec)) =>
        if failFast then Done(acc + [rec]) else Fold(steps[1..], failFast, acc + [rec])
  }

  lemma FoldCons(s: Step, tail: seq<Step>, failFast: bool, acc: seq<Record>)
    ensures s.Halt? ==> Fold([s] + tail, failFast, acc) == Aborted(s.cause)
    ensures s.Probe? && s.record.None? ==> Fold([s] + tail, failFast, acc) == Fold(tail, failFast, acc)
    ensures s.Probe? && s.record.Some? ==>
      Fold([s] + tail, failFast, acc) == (if failFast then Done(acc + [s.record.value]) else Fold(tail, failFast, acc + [s.record.value]))
  {
    assert ([s] + tail)[0] == s && ([s] + tail)[1..] == tail;
  }

  lemma StepsFrom(routes: seq<Route>, i: nat, host: Host)
    requires i < |routes|
    ensures Steps(routes[i..], host) == RouteSteps(routes[i], host) + Steps(routes[i + 1..], host)
  {
    assert routes[i..][0] == routes[i] && routes[i..][1..] == routes[i + 1..];
  }

  lemma RouteStepsOfBlock(route: Route, host: Host, target: string, addrs: seq<Addr>)
    requires target == Normalize(route.ip) && ParsePrefix(target).Some?
    requires addrs == Block(ParsePrefix(target).value)
    ensures |RouteSteps(route, host)| == |addrs|
  {
  }

  lemma RouteStepAt(route: Route, host: Host, target: string, addrs: seq<Addr>, j: nat)
    requires target == Normalize(route.ip) && ParsePrefix(target).Some?
    requires addrs == Block(ParsePrefix(target).value)
    requires j < |addrs|
    ensures RouteSteps(route, host)[j] == AddrStep(route, target, addrs[j], host)
  {
  }

  lemma SliceCons(steps: seq<Step>, rest: seq<Step>, j: nat)
    requires j < |steps|
    ensures steps[j..] + rest == [steps[j]] + (steps[j + 1..] + rest)
  {
  }

  lemma SliceEnd(steps: seq<Step>, rest: seq<Step>)
    ensures steps[|steps|..] + rest == rest
  {
  }

  /** The step of one address, in terms of what parseIp and checkIpRoute gave. */
  lemma AddrStepOf(route: Route, target: string, a: Addr, host: Host, ipv4: Option<Addr>, v: Verdict)
    requires ipv4 == ParseIp(FormatAddr(a))
    requires ipv4.Some? ==> v == CheckAddr(ipv4.value, route.expects, host)
    ensures ipv4.None? ==> AddrStep(route, target, a, host) == Halt(NotIPv4)
    ensures ipv4.Some? && v == Pass ==> AddrStep(route, target, a, host) == Probe(ipv4.value, None)
    ensures ipv4.Some? && v != Pass ==>
      AddrStep(route, target, a, host) == Probe(ipv4.value, Some(Record(route.name, target, v.cause)))
  {
  }

  /** The result of loopRoutes for a configuration on a host. */
  function Run(config: Config, host: Host): RunResult {
    Fold(Steps(config.route, host), config.failFast, [])
  }

  /** The inner loop of loopRoutes (route.go:157-175): every address of one
      route's prefix, in order. `stop` is the result when the loop returns
      from loopRoutes (an address that is not IPv4, or the first record under
      fail-fast); otherwise `checkErrs` is the record list it leaves behind.
      `rest` stands for the steps of the routes that follow. */
  method ProbeAddrs(route: Route, target: string, addrs: seq<Addr>, host: Host, failFast: bool,
                    errs: seq<Record>, ghost rest: seq<Step>)
    returns (stop: Option<RunResult>, checkErrs: seq<Record>)
    requires target == Normalize(route.ip) && ParsePrefix(target).Some?
    requires addrs == Block(ParsePrefix(target).value)
    ensures stop.Some? ==> stop.value == Fold(RouteSteps(route, host) + rest, failFast, errs)
    ensures stop.None? ==> Fold(RouteSteps(route, host) + rest, failFast, errs) == Fold(rest, failFast, checkErrs)
  {
    ghost var steps := RouteSteps(route, host);
    RouteStepsOfBlock(route, host, target, addrs);
    checkErrs := errs;
    for j := 0 to |addrs|
      invariant Fold(steps + rest, failFast, errs) == Fold(steps[j..] + rest, failFast, checkErrs)
    {
      RouteStepAt(route, host, target, addrs, j);
      SliceCons(steps, rest, j);
      FoldCons(steps[j], steps[j + 1..] + rest, failFast, checkErrs);
      var ipv4 := ParseIp(FormatAddr(addrs[j]));
      if ipv4.None? {
        AddrStepOf(route, target, addrs[j], host, ipv4, Pass);
        return Some(Aborted(NotIPv4)), checkErrs;
      }
      var err := CheckIpRoute(ipv4.value, route.expects, host);
      AddrStepOf(route, target, addrs[j], host, ipv4, err);
      if err != Pass {
        checkErrs := checkErrs + [Record(route.name, target, err.cause)];
        if failFast {
          return Some(Done(checkErrs)), checkErrs;
        }
      }
    }
    SliceEnd(steps, rest);
    stop := None;
  }

  /** loopRoutes (route.go:135-181). */
  method LoopRoutes(config: Config, host: Host) returns (r: RunResult)
    ensures r == Run(config, host)
  {
    var checkErrs: seq<Record> := [];
    var routes := config.route;
    for ri := 0 to |routes|
      invariant Run(config, host) == Fold(Steps(routes[ri..], host), config.failFast, checkErrs)
    {
      var route := routes[ri];
      ghost var rest := Steps(routes[ri + 1..], host);
      StepsFrom(routes, ri, host);

      var target := route.ip;
      if '/' !in target {
        target := target + "/32";
      }
      var ips := CidrIps(target);
      if ips.None? {
        assert RouteSteps(route, host) == [Halt(BadTarget)];
        FoldCons(Halt(BadTarget), rest, config.failFast, checkErrs);
        return Aborted(BadTarget);
      }
      var stop;
      stop, checkErrs := ProbeAddrs(route, target, ips.value, host, config.failFast, checkErrs, rest);
      if stop.Some? {
        return stop.value;
      }
    }
    if |checkErrs| > 0 {
      return Done(checkErrs);
    }
    return Done([]);
  }
}
