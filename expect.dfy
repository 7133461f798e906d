/** Matching one observed route against the ordered expectation clauses of a
    configured route: `checkDevice`, `checkGateway`, `checkSource` and
    `doExpect` in route.go.

    The host's interface table is an oracle: `InterfaceByName` stands for
    Go's `net.InterfaceByName`, and says whether the interface exists, does
    not exist, or could not be looked up for another reason. The error texts
    that route.go inspects are replaced by tagged results. */
module Expectation {
  import opened Options
  import opened Ipv4
  import opened RouteConfig

  datatype InterfaceLookup = Exists | NoSuchInterface | LookupError

  /** What the route oracle reports for one destination: the outgoing
      interface's name, the gateway and the preferred source address. */
  datatype RouteOutcome = RouteOutcome(iface: string, gateway: Option<Addr>, source: Option<Addr>)

  datatype DeviceCheck = DeviceOk | DeviceAbsent | DeviceMismatch

  /** Why one address does not meet its expectations. */
  datatype Mismatch =
    | InterfaceNotExist                        // "interface not exist"
    | MismatchDevice                           // "mismatch device"
    | CheckedAllDevices(checked: seq<string>)  // "checked all devices, not matching any"
    | MismatchGateway                          // "mismatch gateway"
    | MismatchSource                           // "mismatch source"
    | RouteLookupFailed                        // the route oracle returned an error

  datatype Verdict = Pass | Fail(cause: Mismatch)

  /** checkDevice (route.go:49-62): the interface in use against the expected
      one. Only when they differ is the expected name looked up; it is absent
      only when the lookup says so, and any other difference is a mismatch. */
  function CheckDevice(device: string, expectDevice: string, interfaceByName: string -> InterfaceLookup): (r: DeviceCheck)
    ensures r == DeviceOk <==> device == expectDevice
    ensures r == DeviceAbsent <==> device != expectDevice && interfaceByName(expectDevice) == NoSuchInterface
  {
    if device != expectDevice then
      if interfaceByName(expectDevice) == NoSuchInterface then DeviceAbsent else DeviceMismatch
    else
      DeviceOk
  }

  /** checkGateway (route.go:64-69). */
  function CheckGateway(gateway: string, expectGateway: string): (r: Verdict)
    ensures r == Pass <==> gateway == expectGateway
    ensures r != Pass ==> r == Fail(MismatchGateway)
  {
    if gateway != expectGateway then Fail(MismatchGateway) else Pass
  }

  /** checkSource (route.go:71-76). */
  function CheckSource(source: string, expectSource: string): (r: Verdict)
    ensures r == Pass <==> source == expectSource
    ensures r != Pass ==> r == Fail(MismatchSource)
  {
    if source != expectSource then Fail(MismatchSource) else Pass
  }

  /** The error checkDevice returns for a failed device check. */
  function DeviceError(d: DeviceCheck): Mismatch {
    if d == DeviceAbsent then InterfaceNotExist else MismatchDevice
  }

  /** A clause is passed over in favour of the next one when it names a device
      that is not the one in use and that does not exist on the host. */
  predicate Skippable(o: RouteOutcome, w: RouteExpectWhen, interfaceByName: string -> InterfaceLookup) {
    w.device != "" && CheckDevice(o.iface, w.device, interfaceByName) == DeviceAbsent
  }

  /** Index of the first clause that is not skippable, or |expects| if every
      clause is. */
  function FirstUnskipped(o: RouteOutcome, expects: seq<RouteExpect>, interfaceByName: string -> InterfaceLookup): (k: nat)
    ensures k <= |expects|
    ensures forall j :: 0 <= j < k ==> Skippable(o, expects[j].when, interfaceByName)
    ensures k < |expects| ==> !Skippable(o, expects[k].when, interfaceByName)
  {
    if expects == [] then 0
    else if Skippable(o, expects[0].when, interfaceByName) then 1 + FirstUnskipped(o, expects[1..], interfaceByName)
    else 0
  }

  /** The device names of the clauses that name one, in order. */
  function DeviceNames(expects: seq<RouteExpect>): seq<string> {
    if expects == [] then []
    else
      var last := expects[|expects| - 1].when.device;
      DeviceNames(expects[..|expects| - 1]) + (if last != "" then [last] else [])
  }

  /** The gateway and source conditions of a clause, in that order. */
  function AddressVerdict(o: RouteOutcome, w: RouteExpectWhen): Verdict {
    if w.gateway != "" && CheckGateway(IpText(o.gateway), w.gateway) != Pass then Fail(MismatchGateway)
    else if w.source != "" && CheckSource(IpText(o.source), w.source) != Pass then Fail(MismatchSource)
    else Pass
  }

  /** The verdict of the clause that decides: a failed device check fails
      with the list of devices tried when there is more than one clause, and
      with checkDevice's own error otherwise; then gateway, then source. */
  function ClauseVerdict(o: RouteOutcome, w: RouteExpectWhen, interfaceByName: string -> InterfaceLookup, several: bool, tried: seq<string>): Verdict {
    if w.device != "" && CheckDevice(o.iface, w.device, interfaceByName) != DeviceOk then
      if several then Fail(CheckedAllDevices(tried))
      else Fail(DeviceError(CheckDevice(o.iface, w.device, interfaceByName)))
    else AddressVerdict(o, w)
  }

  /** The clause that decides: the first one that is not skipped, and the
      last one when every clause would be skipped (the last is never). */
  function Deciding(o: RouteOutcome, expects: seq<RouteExpect>, interfaceByName: string -> InterfaceLookup): (d: nat)
    requires expects != []
    ensures d < |expects|
  {
    var k := FirstUnskipped(o, expects, interfaceByName);
    if k == |expects| then k - 1 else k
  }

  /** What doExpect returns: success for no clauses, otherwise the verdict of
      the deciding clause, with every device named up to and including it. */
  function ExpectVerdict(o: RouteOutcome, expects: seq<RouteExpect>, interfaceByName: string -> InterfaceLookup): Verdict {
    if expects == [] then Pass
    else
      var d := Deciding(o, expects, interfaceByName);
      ClauseVerdict(o, expects[d].when, interfaceByName, |expects| > 1, DeviceNames(expects[..d + 1]))
  }

  /** doExpect (route.go:78-119): walks the clauses in order, recording each
      device it tries, passing over a clause whose device is absent unless it
      is the last, and letting the first clause it does not pass over decide. */
  method DoExpect(o: RouteOutcome, expects: seq<RouteExpect>, interfaceByName: string -> InterfaceLookup) returns (r: Verdict)
    ensures r == ExpectVerdict(o, expects, interfaceByName)
  {
    var checkedDevices: seq<string> := [];
    var numExpects := |expects|;
    for i := 0 to numExpects
      invariant checkedDevices == DeviceNames(expects[..i])
      invariant forall j :: 0 <= j < i ==> Skippable(o, expects[j].when, interfaceByName)
      invariant i < numExpects || numExpects == 0
    {
      var clause := expects[i];
      assert expects[..i + 1] == expects[..i] + [clause];
      if clause.when.device != "" {
        var err := CheckDevice(o.iface, clause.when.device, interfaceByName);
        checkedDevices := checkedDevices + [clause.when.device];
        if err != DeviceOk {
          if err == DeviceAbsent {
            if i < numExpects - 1 {
              continue;
            }
          }
          if numExpects > 1 {
            return Fail(CheckedAllDevices(checkedDevices));
          }
          return Fail(DeviceError(err));
        }
      }

      if clause.when.gateway != "" {
        var err := CheckGateway(IpText(o.gateway), clause.when.gateway);
        if err != Pass {
          return err;
        }
      }

      if clause.when.source != "" {
        var err := CheckSource(IpText(o.source), clause.when.source);
        if err != Pass {
          return err;
        }
      }

      break;
    }
    return Pass;
  }

  /** FirstUnskipped is the only index with its two defining properties. */
  lemma FirstUnskippedAt(o: RouteOutcome, expects: seq<RouteExpect>, interfaceByName: string -> InterfaceLookup, k: nat)
    requires k <= |expects|
    requires forall j :: 0 <= j < k ==> Skippable(o, expects[j].when, interfaceByName)
    requires k < |expects| ==> !Skippable(o, expects[k].when, interfaceByName)
    ensures FirstUnskipped(o, expects, interfaceByName) == k
  {
  }

  /** When every clause names a device, the devices tried are those names. */
  lemma {:induction false} DeviceNamesAllNamed(expects: seq<RouteExpect>)
    requires forall j :: 0 <= j < |expects| ==> expects[j].when.device != ""
    ensures |DeviceNames(expects)| == |expects|
    ensures forall j :: 0 <= j < |expects| ==> DeviceNames(expects)[j] == expects[j].when.device
  {
    if expects != [] {
      DeviceNamesAllNamed(expects[..|expects| - 1]);
    }
  }

  /** A clause reached with its device condition met (or without one) is
      final: its gateway and source conditions alone decide, and clauses after
      it are never consulted, whatever they say. */
  lemma ReachedClauseIsFinal(o: RouteOutcome, expects: seq<RouteExpect>, interfaceByName: string -> InterfaceLookup, k: nat, later: seq<RouteExpect>)
    requires k < |expects|
    requires forall j :: 0 <= j < k ==> Skippable(o, expects[j].when, interfaceByName)
    requires expects[k].when.device == "" || expects[k].when.device == o.iface
    ensures ExpectVerdict(o, expects, interfaceByName) == AddressVerdict(o, expects[k].when)
    ensures ExpectVerdict(o, expects[..k + 1] + later, interfaceByName) == AddressVerdict(o, expects[k].when)
  {
    var other := expects[..k + 1] + later;
    FirstUnskippedAt(o, expects, interfaceByName, k);
    FirstUnskippedAt(o, other, interfaceByName, k);
  }

  /** A clause whose three fields are all empty accepts any route as soon as
      it is reached. */
  lemma UnconditionalClauseAccepts(o: RouteOutcome, expects: seq<RouteExpect>, interfaceByName: string -> InterfaceLookup, k: nat)
    requires k < |expects|
    requires forall j :: 0 <= j < k ==> Skippable(o, expects[j].when, interfaceByName)
    requires expects[k].when == RouteExpectWhen("", "", "")
    ensures ExpectVerdict(o, expects, interfaceByName) == Pass
  {
    ReachedClauseIsFinal(o, expects, interfaceByName, k, []);
  }

  /** An expected device that exists but is not in use ends the evaluation:
      with several clauses it reports every device tried so far (all names up
      to this clause, in order), with one clause it is a device mismatch. */
  lemma PresentDeviceMismatchIsFinal(o: RouteOutcome, expects: seq<RouteExpect>, interfaceByName: string -> InterfaceLookup, k: nat)
    requires k < |expects|
    requires forall j :: 0 <= j < k ==> Skippable(o, expects[j].when, interfaceByName)
    requires expects[k].when.device != "" && CheckDevice(o.iface, expects[k].when.device, interfaceByName) == DeviceMismatch
    ensures |expects| > 1 ==> ExpectVerdict(o, expects, interfaceByName) == Fail(CheckedAllDevices(DeviceNames(expects[..k + 1])))
    ensures |expects| == 1 ==> ExpectVerdict(o, expects, interfaceByName) == Fail(MismatchDevice)
    ensures |DeviceNames(expects[..k + 1])| == k + 1
    ensures forall j :: 0 <= j <= k ==> DeviceNames(expects[..k + 1])[j] == expects[j].when.device
  {
    FirstUnskippedAt(o, expects, interfaceByName, k);
    DeviceNamesAllNamed(expects[..k + 1]);
  }

  /** When every expected device is absent, the last clause is not passed
      over: with several clauses the result lists all of them, with one clause
      it is checkDevice's "interface not exist". */
  lemma AllDevicesAbsent(o: RouteOutcome, expects: seq<RouteExpect>, interfaceByName: string -> InterfaceLookup)
    requires expects != []
    requires forall j :: 0 <= j < |expects| ==> Skippable(o, expects[j].when, interfaceByName)
    ensures |expects| > 1 ==> ExpectVerdict(o, expects, interfaceByName) == Fail(CheckedAllDevices(DeviceNames(expects)))
    ensures |expects| == 1 ==> ExpectVerdict(o, expects, interfaceByName) == Fail(InterfaceNotExist)
    ensures |DeviceNames(expects)| == |expects|
    ensures forall j :: 0 <= j < |expects| ==> DeviceNames(expects)[j] == expects[j].when.device
  {
    FirstUnskippedAt(o, expects, interfaceByName, |expects|);
    assert expects[..|expects|] == expects;
    DeviceNamesAllNamed(expects);
  }

  /** Clauses after the deciding one do not matter: replacing them changes
      nothing, as long as the list keeps having one clause or several. */
  lemma LaterClausesIgnored(o: RouteOutcome, expects: seq<RouteExpect>, interfaceByName: string -> InterfaceLookup, later: seq<RouteExpect>)
    requires FirstUnskipped(o, expects, interfaceByName) < |expects|
    requires (FirstUnskipped(o, expects, interfaceByName) + 1 + |later| > 1) == (|expects| > 1)
    ensures ExpectVerdict(o, expects[..FirstUnskipped(o, expects, interfaceByName) + 1] + later, interfaceByName)
         == ExpectVerdict(o, expects, interfaceByName)
  {
    var k := FirstUnskipped(o, expects, interfaceByName);
    var other := expects[..k + 1] + later;
    assert other[..k + 1] == expects[..k + 1];
    assert forall j :: 0 <= j <= k ==> other[j] == expects[j];
    FirstUnskippedAt(o, other, interfaceByName, k);
    assert Deciding(o, other, interfaceByName) == k == Deciding(o, expects, interfaceByName);
  }

  /** Fallback: the first expected device is absent from the host and the
      second is the one in use, so the second clause decides and passes. */
  lemma FallbackToSecondDevice(o: RouteOutcome, first: RouteExpectWhen, second: RouteExpectWhen, interfaceByName: string -> InterfaceLookup)
    requires first.device != "" && first.device != o.iface && interfaceByName(first.device) == NoSuchInterface
    requires second == RouteExpectWhen(o.iface, "", "")
    ensures ExpectVerdict(o, [RouteExpect(first), RouteExpect(second)], interfaceByName) == Pass
  {
    ReachedClauseIsFinal(o, [RouteExpect(first), RouteExpect(second)], interfaceByName, 1, []);
  }

  /** No fallback on a present device: the first expected device exists but
      is not in use, so evaluation fails listing it, whatever the second
      clause would have said. */
  lemma NoFallbackOnPresentDevice(o: RouteOutcome, first: RouteExpectWhen, second: RouteExpectWhen, interfaceByName: string -> InterfaceLookup)
    requires first.device != "" && first.device != o.iface && interfaceByName(first.device) == Exists
    ensures ExpectVerdict(o, [RouteExpect(first), RouteExpect(second)], interfaceByName) == Fail(CheckedAllDevices([first.device]))
  {
    var expects := [RouteExpect(first), RouteExpect(second)];
    PresentDeviceMismatchIsFinal(o, expects, interfaceByName, 0);
    assert expects[..1] == [RouteExpect(first)];
    assert DeviceNames([RouteExpect(first)]) == [first.device] by {
      assert [RouteExpect(first)][..0] == [];
    }
  }

  /** A gateway condition given as a valid dotted quad holds exactly when the
      route's gateway is that address; given as any other text (except
      "<nil>") it never holds. */
  lemma GatewayConditionMeaning(o: RouteOutcome, expectGateway: string)
    ensures ParseAddr(expectGateway).Some? ==>
      (CheckGateway(IpText(o.gateway), expectGateway) == Pass <==> o.gateway == ParseAddr(expectGateway))
    ensures ParseAddr(expectGateway).None? && expectGateway != "<nil>" ==>
      CheckGateway(IpText(o.gateway), expectGateway) == Fail(MismatchGateway)
  {
    IpTextMatches(o.gateway, expectGateway);
  }

  /** The same for the source condition. */
  lemma SourceConditionMeaning(o: RouteOutcome, expectSource: string)
    ensures ParseAddr(expectSource).Some? ==>
      (CheckSource(IpText(o.source), expectSource) == Pass <==> o.source == ParseAddr(expectSource))
    ensures ParseAddr(expectSource).None? && expectSource != "<nil>" ==>
      CheckSource(IpText(o.source), expectSource) == Fail(MismatchSource)
  {
    IpTextMatches(o.source, expectSource);
  }
}
