# routemonitor route-expectation engine in Dafny

routemonitor reads a list of configured routes. Each route has a name, a
target (an IPv4 address or a CIDR prefix) and an ordered list of
expectation clauses. A clause may name an outgoing device, a gateway and a
source address. For every address the target covers, routemonitor asks the
kernel which route it would use. It then matches the answer against the
clauses:

- A clause whose expected device is absent from the host falls back to the
  next clause.
- Otherwise the first clause decides.

Every failing address yields one mismatch record. In fail-fast mode the run
stops at the first record. Otherwise it collects them all.

This project models that engine, which is `route.go`, together with the
configuration types of `config.go`. It proves what the engine promises.
The modules follow the program:

- `Decimal` (decimal.dfy) and `Ipv4` (ipv4.dfy): the IPv4 text forms the
  engine parses and prints. These are Go's dotted quad, with canonical
  decimal octets, and the prefix length.
- `Prefixes` (prefix.dfy): `netip.ParsePrefix`, `Prefix.Masked`,
  `Prefix.Contains` and the expansion loop `getCidrIps`.
- `RouteConfig` (config.dfy): `Config`, `Route`, `RouteExpect` and
  `RouteExpectWhen`. An empty string means a field is not set.
- `Expectation` (expect.dfy): `checkDevice`, `checkGateway`, `checkSource`,
  and `doExpect` as a loop.
- `RouteCheck` (routecheck.dfy): `checkIpRoute` and `loopRoutes` as nested
  loops.
- `RunProperties` (runs.dfy): what a whole run reports.

The two operating-system services are oracles in a `Host` value:

- the kernel route lookup (`Router.router.Route`), which may fail;
- `net.InterfaceByName`, which answers exists, no such interface, or some
  other error.

The error texts that route.go tests with `strings.Contains` are replaced by
tagged results: `DeviceCheck` and `Mismatch`.

The loops are proved against specification functions:

- `DoExpect` against `ExpectVerdict`: the first clause that is not passed
  over decides, or the last clause if every clause is passed over.
- `CidrIps` against `Block`: every address of the masked prefix, in order.
- `LoopRoutes` against `Run`. `Run` lists the steps of a run (one per
  route, or one per address of a route) and folds them left to right. It
  stops at a halt, and under fail-fast at the first record.

Lemmas then state, for these specification functions, what the source
promises.

The configuration is an immutable value in the model. `loopRoutes` changes
only its loop copy of a route, so the configured routes are never modified.

Two behaviours of the code are easy to misread, and the model follows the
code on both:

- A failed route lookup does not abort the run. `checkIpRoute` returns the
  lookup error like any mismatch, and `loopRoutes` records it
  (route.go:122-125, 165-171). See `ResolverFailureRecorded`.
- With several clauses, an absent device on the last clause ends with
  "checked all devices" and not "interface not exist" (route.go:87-97). See
  `AllDevicesAbsent`.

## Model

| member | source | states |
|---|---|---|
| Decimal.ParseIsFormatInverse | route.go:33 | A decimal field parses to n exactly when it is the canonical numeral of n: no sign, no leading zero. |
| Ipv4.ParseFormatAddr | route.go:23-29 | The dotted quad that Go prints for an address parses back to that same address. |
| Ipv4.FormatParseAddr | route.go:23-29 | Any text that parses as an IPv4 address is the canonical dotted quad of that address. |
| Ipv4.FormatAddrInjective | route.go:102 | Two addresses print the same text exactly when they are equal. |
| Ipv4.FormatAddrOctets | route.go:160 | An address prints as its four octets in decimal, separated by dots. |
| Ipv4.IpTextMatches | route.go:102 | An expected address given as a valid dotted quad equals `To4().String()` exactly when the observed address is that address. Any other text except "<nil>" never matches. |
| Prefixes.Network | route.go:37 | The masked address is a multiple of the block size 2^(32-n). It is at most the prefix's address, and its block holds that address and fits in the IPv4 space. |
| Prefixes.InPrefixRange | route.go:40 | `Contains` holds exactly for the addresses from the network address up to the broadcast address. |
| Prefixes.MaskedSameNetwork | route.go:37 | Masking keeps the network address and the set of addresses contained. |
| Prefixes.BlockOfMasked | route.go:37-38 | Expanding the masked prefix gives the same addresses as the prefix itself. |
| Prefixes.BlockIsPrefixContents | route.go:37-46 | A /n prefix expands to exactly 2^(32-n) addresses. They start at the network address, end at the broadcast address, strictly ascend, and are exactly the addresses the prefix contains. |
| Prefixes.SingleAddressBlock | route.go:37-46 | A /32 prefix expands to its own address only. |
| Prefixes.ParsePrefixSplit | route.go:33 | `ParsePrefix` splits at the last '/'. It needs a valid address before it and a canonical length of at most 32 after it. |
| Prefixes.ParsePrefixFormat | route.go:33 | Any address with any length from 0 to 32, written as "a.b.c.d/n", parses back to that prefix. |
| Prefixes.ParseBareAddress | route.go:140-146 | Text without '/' with "/32" appended is a valid prefix exactly when the text is a valid address, and then it is that address /32. |
| Prefixes.CidrIps | route.go:31-47 | `getCidrIps` returns an error exactly when the text is not a prefix. Otherwise it returns the prefix's full expansion `Block`. |
| Prefixes.TenSlash24 | route_test.go:7-15 | "10.0.0.0/24" parses, and expands to 256 addresses from 10.0.0.0 to 10.0.0.255. |
| Expectation.CheckDevice | route.go:49-62 | The device check passes exactly when the names are equal. It reports "interface not exist" exactly when they differ and the lookup of the expected name says no such interface. Every other difference is a device mismatch. |
| Expectation.CheckGateway | route.go:64-69 | Passes exactly when the texts are equal. Otherwise it is a gateway mismatch. |
| Expectation.CheckSource | route.go:71-76 | Passes exactly when the texts are equal. Otherwise it is a source mismatch. |
| Expectation.FirstUnskipped | route.go:83-93 | Gives the index of the first clause that is not passed over. Every clause before it names an absent device that is not the one in use. |
| Expectation.DoExpect | route.go:78-119 | The loop returns `ExpectVerdict`. That is success for no clauses. Otherwise it is the verdict of the first clause not passed over (the last clause if all would be), with the devices tried up to it. |
| Expectation.DeviceNamesAllNamed | route.go:86 | When every clause names a device, the devices tried are those names, in clause order. |
| Expectation.ReachedClauseIsFinal | route.go:101-118 | A clause reached with its device condition met or absent decides by its gateway and source conditions alone. Changing the clauses after it changes nothing. |
| Expectation.UnconditionalClauseAccepts | route.go:83-118 | A reached clause with no device, gateway or source accepts the route. |
| Expectation.PresentDeviceMismatchIsFinal | route.go:85-97 | An expected device that exists but is not in use ends the evaluation. With several clauses it fails with "checked all devices", listing every device up to this clause in order. With one clause it is a device mismatch. |
| Expectation.AllDevicesAbsent | route.go:87-97 | If every expected device is absent, the last clause is not passed over. With several clauses the result is "checked all devices" listing all of them. With one clause it is "interface not exist". |
| Expectation.LaterClausesIgnored | route.go:115-116 | Replacing the clauses after the deciding one does not change the verdict. |
| Expectation.FallbackToSecondDevice | route.go:87-92 | The first device is absent and the second is the one in use, so the second clause decides and passes. |
| Expectation.NoFallbackOnPresentDevice | route.go:85-97 | The first device exists but is not in use, so evaluation fails listing it, whatever the second clause says. |
| Expectation.GatewayConditionMeaning | route.go:101-106 | A gateway condition written as a valid dotted quad holds exactly when the route's gateway is that address. Any other text except "<nil>" always fails. |
| Expectation.SourceConditionMeaning | route.go:108-113 | The same for the source condition and the route's source address. |
| RouteCheck.CheckIpRoute | route.go:121-133 | A failed route lookup gives a lookup failure. Otherwise the result is the clauses' verdict on the route the host chose. |
| RouteCheck.ProbeAddrs | route.go:159-173 | The address loop of one route either ends the run with the result `Run` gives, or leaves the record list from which `Run` continues with the next route. |
| RouteCheck.LoopRoutes | route.go:135-181 | `loopRoutes` returns `Run(config, host)`. |
| RunProperties.FirstHalt | route.go:146-149 | Gives the cause of the first halt, and no cause exactly when every step is a probe. |
| RunProperties.FirstNotable | route.go:160-171 | Gives the index of the first halt or record, and none exactly when there is neither. |
| RunProperties.FoldCollectAll | route.go:146-180 | Without fail-fast, the first halt aborts the run and discards the records collected so far. Without a halt, every record is returned in order. |
| RunProperties.FoldFailFast | route.go:160-171 | With fail-fast, the run ends at the first halt or record: aborted, or done with exactly that one record added. |
| RunProperties.FailFastBounds | route.go:168-170 | With fail-fast, at most one record is added, and an abort has the cause of the first halt. |
| RunProperties.FailFastIsFirstRecord | route.go:165-180 | Without halts, fail-fast returns exactly the first record collect-all would return, and no record when there is none. |
| RunProperties.AddrStepIsProbe | route.go:159-163 | For an IPv4 target, re-parsing an address's text always succeeds, so the not-IPv4 exit is never taken. Every visit probes the address itself. |
| RunProperties.RouteStepsShape | route.go:140-159 | A route with a malformed target halts the run. Any other route probes every address of its prefix, in order, each with its record if its check fails. |
| RunProperties.RouteProbesAscending | route.go:146-159 | A well-formed route probes exactly the addresses its prefix contains, in strictly ascending order. |
| RunProperties.RouteRecordsMeaning | route.go:165-168 | A route's records are exactly one per address of its prefix whose check fails. Each names the route, its normalised target and the cause. |
| RunProperties.RouteRecordsInOrder | route.go:159-173 | A route's records follow its addresses in ascending order: one per failing address, nothing for the others. |
| RunProperties.BareTargetOneAddress | route.go:140-146 | A bare address is checked as "<addr>/32", which probes exactly that one address. |
| RunProperties.ResolverFailureRecorded | route.go:122-125 | An address the host cannot route produces a lookup-failure record for its route. It does not stop the run. |
| RunProperties.RouteFirstHalt | route.go:146-149 | Within a route, the only halt is a malformed target. |
| RunProperties.HaltIffMalformed | route.go:138-163 | A run has a halt exactly when some configured target is malformed, and then the halt is a bad target. |
| RunProperties.RecordsByRoute | route.go:138-173 | Records come route by route in configuration order. A record is reported exactly when some route produced it. |
| RunProperties.RunCollectAll | route.go:135-181 | Without fail-fast, any malformed target aborts the run with no records. Otherwise the run returns every record; no failure returns the empty list (Go's nil, nil). |
| RunProperties.RunFailFast | route.go:135-181 | With fail-fast, an abort is a bad target and a report has at most one record. With all targets well formed, the report is the first record collect-all would give, or none. |

## Left out

- IPv6 targets. The model's address and prefix parsers accept IPv4 text only, so every IPv6 target is a malformed target (`BadTarget`) and halts the run before any address is visited. Go behaves differently in three cases:
  - An IPv6 prefix that is not IPv4-mapped, such as "2001:db8::/126", is expanded in full. Go then stops at the not-IPv4 exit (route.go:160-163) on its first address, with no records. The model reports `BadTarget` there, not `NotIPv4`; both abort the run and discard the records.
  - An IPv4-mapped prefix such as "::ffff:10.0.0.0/120" is parsed by `netip.ParsePrefix`. Its addresses' text re-parses and `To4` succeeds, so Go probes 10.0.0.0 to 10.0.0.255. The model aborts with `BadTarget` instead.
  - A bare IPv6 address gets "/32" appended (route.go:140-144). That makes an IPv6 /32 of 2^96 addresses, which the loop at route.go:39-45 tries to collect, so Go would not finish or would run out of memory. The model halts with `BadTarget`.
- `net.ParseIP` on other text forms, such as IPv6 or IPv4-mapped text. For an IPv4 target, `parseIp` is only applied to an address's own dotted quad, which `AddrStepIsProbe` shows always parses.
- The host oracles are fixed for a whole run. The real kernel's routes and interfaces may change between two lookups, and the model does not capture that.
- A nil interface from the route lookup. Go dereferences it only when a clause it reaches names a device (route.go:84-85), and panics there. The model's oracle always returns an interface name, so the model gives a verdict in that case instead. Where no reached clause names a device, Go does not panic and the model gives the same verdict whatever name the oracle returns.
- Error message texts (`fmt.Errorf`), except the device list of "checked all devices" and the route name and target of a record. A record keeps the mismatch kind, not its formatted text.
- The `slog` call in `loopRoutes` (route.go:151-157), which is logging only.
- `newRouter` and `CheckRoutes` (route.go:183-214). They build the OS-backed router and print the records; any record turns into one summary error.
- `ReadConfig` (config.go:32-50), YAML decoding and its strict schema, and main.go, which handles command-line parsing, logger setup and process exit.
