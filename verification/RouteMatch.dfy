/**
 Rule evaluation for a connection: a prelude that completes the metadata, then one pass
 over the rules that folds route options into the metadata and stops at the first final
 action. The pre-match mode runs before there is a connection to read from.
 */
module RouteMatch {
  import opened Wrappers

  datatype Network = Tcp | Udp | Icmp
  datatype Ip = V4(bits: nat) | V6(bits: nat)
  datatype Socksaddr = Socksaddr(addr: Option<Ip>, fqdn: string, port: nat) {
    predicate IsValid() {
      addr.Some? || fqdn != ""
    }
  }

  const NO_ADDRESS := Socksaddr(None, "", 0)

  type Duration = int
  type Blob = seq<nat>

  /** The deprecated per-inbound options; a domain strategy of None is as-is. */
  datatype InboundOptions = InboundOptions(sniff: bool, overrideDestination: bool, strategy: Option<nat>,
      udpDisableUnmapping: bool)

  const NO_INBOUND_OPTIONS := InboundOptions(false, false, None, false)

  /** `others` stands for the fields no code here writes; the rule cache is reset before every match and left out. */
  datatype Metadata = Metadata(
    network: Network,
    destination: Socksaddr,
    originDestination: Socksaddr,
    routeOriginalDestination: Socksaddr,
    destinationAddresses: seq<Ip>,
    domain: string,
    protocol: string,
    processInfo: Option<nat>,
    fakeIP: bool,
    ipVersion: nat,
    inbound: InboundOptions,
    options: Options,
    others: Blob)

  datatype Options = Options(
    networkStrategy: Option<nat>,
    networkType: seq<nat>,
    fallbackNetworkType: seq<nat>,
    fallbackDelay: Duration,
    udpDisableUnmapping: bool,
    udpConnect: bool,
    udpTimeout: Duration,
    tlsFragment: bool,
    tlsFragmentFallbackDelay: Duration,
    tlsRecordFragment: bool)

  datatype RouteOptions = RouteOptions(overrideAddress: Socksaddr, overridePort: nat, options: Options)

  /** A bypass rule is configured with route options too, but evaluation does not apply them. */
  datatype Action =
    | Route(outbound: string, routeOptions: RouteOptions)
    | SetOptions(routeOptions: RouteOptions)
    | Direct
    | Bypass(outbound: string, ignored: RouteOptions)
    | Reject
    | HijackDNS
    | Sniff(sniffer: nat)
    | Resolve(server: nat)
    | Predefined

  datatype MatchError = MissingFakeIPRecord | SniffFailed(code: nat) | ResolveFailed(code: nat)

  /** What the connection still has to give, and what was already read off it. */
  datatype Stream = Stream(unread: Blob, buffers: seq<Blob>)

  /**
   The calls into other components, as deterministic functions: rule matching, process
   search, the fake-IP store, the reverse DNS mapping, name resolution and sniffing.
   */
  datatype Env = Env(
    matches: (nat, Metadata) -> bool,
    findProcess: Metadata -> Option<nat>,
    isFakeIP: Ip -> bool,
    fakeDomain: Ip -> Option<string>,
    reverseMapped: Option<Ip> -> Option<string>,
    lookup: (nat, Metadata) -> Result<seq<Ip>, MatchError>,
    legacyLookup: (nat, Metadata) -> Result<seq<Ip>, MatchError>,
    sniff: (nat, Metadata, Stream) -> Sniffed,
    legacySniff: (bool, Metadata, Stream) -> Sniffed)

  /** What a sniffer may change, whether or not it fails. */
  datatype Sniffed = Sniffed(protocol: string, domain: string, destination: Socksaddr, others: Blob, stream: Stream,
      failed: Option<MatchError>)

  function Learn(md: Metadata, s: Sniffed): Metadata {
    md.(protocol := s.protocol, domain := s.domain, destination := s.destination, others := s.others)
  }

  datatype Verdict = Selected(index: nat) | NoRule | Fatal(error: MatchError)
  datatype Outcome = Outcome(verdict: Verdict, metadata: Metadata, stream: Stream)

  // ----- folding options -----

  function Fold(o: Options, next: Options): Options {
    Options(
      if next.networkStrategy.Some? then next.networkStrategy else o.networkStrategy,
      if |next.networkType| > 0 then next.networkType else o.networkType,
      if |next.fallbackNetworkType| > 0 then next.fallbackNetworkType else o.fallbackNetworkType,
      if next.fallbackDelay != 0 then next.fallbackDelay else o.fallbackDelay,
      o.udpDisableUnmapping || next.udpDisableUnmapping,
      o.udpConnect || next.udpConnect,
      if next.udpTimeout > 0 then next.udpTimeout else o.udpTimeout,
      o.tlsFragment || next.tlsFragment,
      if next.tlsFragment then next.tlsFragmentFallbackDelay else o.tlsFragmentFallbackDelay,
      o.tlsRecordFragment || next.tlsRecordFragment)
  }

  /** An override replaces host and port separately, remembering only the first original destination. */
  function Override(md: Metadata, r: RouteOptions): Metadata {
    var remembered :=
      if (r.overrideAddress.IsValid() || r.overridePort > 0) && !md.routeOriginalDestination.IsValid()
      then md.(routeOriginalDestination := md.destination) else md;
    var hosted :=
      if r.overrideAddress.IsValid()
      then
        remembered.(
          destination := r.overrideAddress.(port := remembered.destination.port),
          destinationAddresses := [])
      else remembered;
    if r.overridePort > 0 then hosted.(destination := hosted.destination.(port := r.overridePort)) else hosted
  }

  function Apply(md: Metadata, a: Action): Metadata {
    if a.Route? || a.SetOptions? then
      var o := Override(md, a.routeOptions);
      o.(options := Fold(o.options, a.routeOptions.options))
    else md
  }

  /** A resolve action only does something for a domain name. */
  function Resolved(md: Metadata, addresses: Result<seq<Ip>, MatchError>): Result<Metadata, MatchError> {
    if md.destination.fqdn == "" then Ok(md)
    else
      match addresses
      case Err(e) => Err(e)
      case Ok(ips) => Ok(md.(destinationAddresses := ips))
  }

  // ----- the prelude -----

  function Prelude(env: Env, md: Metadata, stream: Stream): Outcome {
    var md1 := if md.processInfo.None? then md.(processInfo := env.findProcess(md)) else md;
    var dest := md1.destination.addr;
    if dest.Some? && env.isFakeIP(dest.value) then
      match env.fakeDomain(dest.value)
      case None => Outcome(Fatal(MissingFakeIPRecord), md1, stream)
      case Some(domain) =>
        if domain == "" then Outcome(NoRule, Versioned(md1), stream)
        else
          var named := md1.(
            originDestination := md1.destination,
            destination := Socksaddr(None, domain, md1.destination.port),
            fakeIP := true);
          Outcome(NoRule, Versioned(named), stream)
    else if md1.domain == "" && env.reverseMapped(dest).Some? then
      Outcome(NoRule, Versioned(md1.(domain := env.reverseMapped(dest).value)), stream)
    else Outcome(NoRule, Versioned(md1), stream)
  }

  function Versioned(md: Metadata): Metadata {
    match md.destination.addr
    case Some(V4(_)) => md.(ipVersion := 4)
    case Some(V6(_)) => md.(ipVersion := 6)
    case None => md
  }

  /** The legacy inbound options: sniffing, which pre-match skips, then resolving; they are used up. */
  function Legacy(env: Env, md: Metadata, stream: Stream, preMatch: bool): Outcome {
    if md.inbound == NO_INBOUND_OPTIONS then Outcome(NoRule, md, stream)
    else
      var sniffs := !preMatch && md.inbound.sniff;
      var s := env.legacySniff(md.inbound.overrideDestination, md, stream);
      var md1, stream1 := if sniffs then Learn(md, s) else md, if sniffs then s.stream else stream;
      if sniffs && s.failed.Some? then Outcome(Fatal(s.failed.value), md1, stream1)
      else
        match if md1.inbound.strategy.Some? then Resolved(md1, env.legacyLookup(md1.inbound.strategy.value, md1))
            else Ok(md1)
        case Err(e) => Outcome(Fatal(e), md1, stream1)
        case Ok(md2) =>
          var unmap := md2.options.(
            udpDisableUnmapping := md2.options.udpDisableUnmapping || md2.inbound.udpDisableUnmapping);
          Outcome(NoRule, md2.(options := unmap, inbound := NO_INBOUND_OPTIONS), stream1)
  }

  lemma PreludeKeeps(env: Env, md: Metadata, stream: Stream)
    ensures var o := Prelude(env, md, stream);
            && o.metadata.network == md.network && o.metadata.inbound == md.inbound && o.metadata.options == md.options
            && !o.verdict.Selected? && o.stream == stream
  {
  }

  // ----- what the prelude and the overrides leave -----

  /** The destination is a fake address; then it is known by its domain, and nothing else is looked up. */
  predicate Fake(env: Env, md: Metadata) {
    md.destination.addr.Some? && env.isFakeIP(md.destination.addr.value)
  }

  /** The domain a fake address stands for. */
  function Named(env: Env, md: Metadata): Option<string> {
    if !Fake(env, md) || env.fakeDomain(md.destination.addr.value) == Some("") then None
    else env.fakeDomain(md.destination.addr.value)
  }

  /** The fields of `a` but for those the prelude completes are those of `b`. */
  predicate SameBesidesPrelude(a: Metadata, b: Metadata) {
    a == b.(
      processInfo := a.processInfo, destination := a.destination, originDestination := a.originDestination,
      fakeIP := a.fakeIP, domain := a.domain, ipVersion := a.ipVersion)
  }

  /**
   The prelude fails exactly at a fake address without a record. It replaces a fake address by its
   domain, keeping the port and remembering the destination; any other destination stays, and a missing
   domain is filled in from the reverse mapping. The version is that of the address that is left.
   */
  lemma PreludeCompletes(env: Env, md: Metadata, stream: Stream)
    ensures var o := Prelude(env, md, stream);
            var m, before, name := o.metadata, md.destination, Named(env, md);
            && o.stream == stream && SameBesidesPrelude(m, md)
            && o.verdict == (if Fake(env, md) && env.fakeDomain(before.addr.value).None? then Fatal(MissingFakeIPRecord)
                             else NoRule)
            && m.processInfo == (if md.processInfo.Some? then md.processInfo else env.findProcess(md))
            && (if name.Some? then
                  && m.destination == Socksaddr(None, name.value, before.port)
                  && m.originDestination == before && m.fakeIP
                else m.destination == before && m.originDestination == md.originDestination && m.fakeIP == md.fakeIP)
            && m.domain == (if !Fake(env, md) && md.domain == "" && env.reverseMapped(before.addr).Some?
                            then env.reverseMapped(before.addr).value else md.domain)
            && (o.verdict == NoRule && m.destination.addr.Some? ==>
                  m.ipVersion == if m.destination.addr.value.V4? then 4 else 6)
            && (o.verdict != NoRule || m.destination.addr.None? ==> m.ipVersion == md.ipVersion)
  {
  }

  /** A domain name is looked up; addresses need not be. */
  predicate LooksUp(md: Metadata) {
    md.destination.fqdn != ""
  }

  /**
   The legacy options are used up once: sniffed first, unless before the connection is there,
   then resolved by the strategy if what is there by then is a domain. Either may fail.
   */
  lemma LegacyApplies(env: Env, md: Metadata, stream: Stream, preMatch: bool)
    ensures var o := Legacy(env, md, stream, preMatch);
            var sniffs := !preMatch && md.inbound.sniff;
            var s := env.legacySniff(md.inbound.overrideDestination, md, stream);
            var told := if sniffs then md.(protocol := s.protocol, domain := s.domain, destination := s.destination,
                others := s.others) else md;
            var resolves := told.inbound.strategy.Some? && LooksUp(told);
            && (md.inbound == NO_INBOUND_OPTIONS ==> o == Outcome(NoRule, md, stream))
            && (md.inbound != NO_INBOUND_OPTIONS ==>
                  && o.stream == (if sniffs then s.stream else stream)
                  && (sniffs && s.failed.Some? ==> o.verdict == Fatal(s.failed.value) && o.metadata == told)
                  && (!(sniffs && s.failed.Some?) ==>
                        var found := if resolves then env.legacyLookup(told.inbound.strategy.value, told)
                            else Ok(told.destinationAddresses);
                        && (found.Err? ==> o.verdict == Fatal(found.error) && o.metadata == told)
                        && (found.Ok? ==>
                              && o.verdict == NoRule
                              && o.metadata == told.(
                                   destinationAddresses := found.value,
                                   inbound := InboundOptions(false, false, None, false),
                                   options := told.options.(udpDisableUnmapping :=
                                       told.options.udpDisableUnmapping || md.inbound.udpDisableUnmapping)))))
  {
  }

  /**
   An override decides host and port apart; with a new host the addresses found before are
   forgotten. Only the first destination that is overridden is remembered.
   */
  lemma OverrideReplaces(md: Metadata, r: RouteOptions)
    ensures var m := Override(md, r);
            var host := r.overrideAddress.addr.Some? || r.overrideAddress.fqdn != "";
            var port := r.overridePort > 0;
            var known := md.routeOriginalDestination.addr.Some? || md.routeOriginalDestination.fqdn != "";
            && m == md.(destination := m.destination, destinationAddresses := m.destinationAddresses,
                 routeOriginalDestination := m.routeOriginalDestination)
            && m.destination.addr == (if host then r.overrideAddress.addr else md.destination.addr)
            && m.destination.fqdn == (if host then r.overrideAddress.fqdn else md.destination.fqdn)
            && m.destination.port == (if port then r.overridePort else md.destination.port)
            && m.destinationAddresses == (if host then [] else md.destinationAddresses)
            && m.routeOriginalDestination == if (host || port) && !known then md.destination
                                             else md.routeOriginalDestination
  {
  }

  // ----- the rules -----

  /** What one matched rule does: goes on with new metadata, or ends the evaluation. */
  datatype Turn = GoOn(metadata: Metadata, stream: Stream) | Stop(outcome: Outcome)

  function TakeRule(env: Env, a: Action, i: nat, md0: Metadata, stream: Stream, preMatch: bool, bypass: bool): Turn {
    var md := Apply(md0, a);
    match a
    case Sniff(sniffer) =>
      if !preMatch then
        var s := env.sniff(sniffer, md, stream);
        if s.failed.Some? then Stop(Outcome(Fatal(s.failed.value), Learn(md, s), s.stream))
            else GoOn(Learn(md, s), s.stream)
      else if md.network != Icmp then Stop(Outcome(Selected(i), md, stream))
      else GoOn(md, stream)
    case Resolve(server) =>
      (match Resolved(md, env.lookup(server, md))
       case Err(e) => Stop(Outcome(Fatal(e), md, stream))
       case Ok(md1) => GoOn(md1, stream))
    case Route(_, _) => Stop(Outcome(Selected(i), md, stream))
    case Reject => Stop(Outcome(Selected(i), md, stream))
    case HijackDNS => Stop(Outcome(Selected(i), md, stream))
    case Bypass(outbound, _) =>
      if !bypass && outbound == "" then GoOn(md, stream) else Stop(Outcome(Selected(i), md, stream))
    case _ => GoOn(md, stream)
  }

  function Evaluate(env: Env, rules: seq<Action>, i: nat, md: Metadata, stream: Stream, preMatch: bool,
      bypass: bool): Outcome
    decreases |rules| - i
  {
    if i >= |rules| then Outcome(NoRule, md, stream)
    else if !env.matches(i, md) then Evaluate(env, rules, i + 1, md, stream, preMatch, bypass)
    else
      match TakeRule(env, rules[i], i, md, stream, preMatch, bypass)
      case Stop(outcome) => outcome
      case GoOn(md1, stream1) => Evaluate(env, rules, i + 1, md1, stream1, preMatch, bypass)
  }

  function Match(env: Env, rules: seq<Action>, md: Metadata, stream: Stream, preMatch: bool, bypass: bool): Outcome {
    var prelude := Prelude(env, md, stream);
    if prelude.verdict.Fatal? then prelude
    else
      var legacy := Legacy(env, prelude.metadata, stream, preMatch);
      if legacy.verdict.Fatal? then legacy
      else Evaluate(env, rules, 0, legacy.metadata, legacy.stream, preMatch, bypass)
  }

  /** The options of a matched rule, applied one after the other. */
  method ApplyOptions(md: Metadata, r: RouteOptions) returns (metadata: Metadata)
    ensures metadata == Apply(md, SetOptions(r))
  {
    hide Fold;
    metadata := OverrideDestination(md, r);
    var options := FoldOptions(metadata.options, r.options);
    metadata := metadata.(options := options);
  }

  method OverrideDestination(md: Metadata, r: RouteOptions) returns (metadata: Metadata)
    ensures metadata == Override(md, r)
  {
    metadata := md;
    if (r.overrideAddress.IsValid() || r.overridePort > 0) && !metadata.routeOriginalDestination.IsValid() {
      metadata := metadata.(routeOriginalDestination := metadata.destination);
    }
    if r.overrideAddress.IsValid() {
      metadata := metadata.(
        destination := Socksaddr(r.overrideAddress.addr, r.overrideAddress.fqdn, metadata.destination.port),
        destinationAddresses := []);
    }
    if r.overridePort > 0 {
      metadata := metadata.(
        destination := Socksaddr(metadata.destination.addr, metadata.destination.fqdn, r.overridePort));
    }
  }

  method FoldOptions(o: Options, next: Options) returns (folded: Options)
    ensures folded == Fold(o, next)
  {
    var Options(strategy, networkType, fallbackType, delay, unmapping, connect, timeout, fragment, fragmentDelay,
        recordFragment) := o;
    if next.networkStrategy.Some? {
      strategy := next.networkStrategy;
    }
    if |next.networkType| > 0 {
      networkType := next.networkType;
    }
    if |next.fallbackNetworkType| > 0 {
      fallbackType := next.fallbackNetworkType;
    }
    if next.fallbackDelay != 0 {
      delay := next.fallbackDelay;
    }
    if next.udpDisableUnmapping {
      unmapping := true;
    }
    if next.udpConnect {
      connect := true;
    }
    if next.udpTimeout > 0 {
      timeout := next.udpTimeout;
    }
    if next.tlsFragment {
      fragment, fragmentDelay := true, next.tlsFragmentFallbackDelay;
    }
    if next.tlsRecordFragment {
      recordFragment := true;
    }
    folded := Options(strategy, networkType, fallbackType, delay, unmapping, connect, timeout, fragment,
        fragmentDelay, recordFragment);
  }

  /** One matched rule: its options, its action, and whether it is final. */
  method ApplyRule(env: Env, a: Action, i: nat, md0: Metadata, stream0: Stream, preMatch: bool, bypass: bool)
    returns (metadata: Metadata, stream: Stream, selected: bool, fatal: Option<MatchError>)
    ensures var turn := TakeRule(env, a, i, md0, stream0, preMatch, bypass);
            if fatal.Some? then turn == Stop(Outcome(Fatal(fatal.value), metadata, stream))
            else if selected then turn == Stop(Outcome(Selected(i), metadata, stream))
            else turn == GoOn(metadata, stream)
  {
    metadata, stream, selected, fatal := md0, stream0, false, None;
    if a.Route? || a.SetOptions? {
      metadata := ApplyOptions(metadata, a.routeOptions);
    }
    if a.Sniff? {
      if !preMatch {
        var s := env.sniff(a.sniffer, metadata, stream);
        metadata, stream, fatal := Learn(metadata, s), s.stream, s.failed;
        return;
      } else if metadata.network != Icmp {
        selected := true;
        return;
      }
    } else if a.Resolve? {
      if metadata.destination.fqdn != "" {
        var addresses := env.lookup(a.server, metadata);
        if addresses.Err? {
          fatal := Some(addresses.error);
          return;
        }
        metadata := metadata.(destinationAddresses := addresses.value);
      }
    }
    if a.Route? || a.Reject? || a.HijackDNS? {
      selected := true;
    } else if a.Bypass? {
      selected := bypass || a.outbound != "";
    }
  }

  /** The outcome of a part of the match that selects no rule. */
  function Part(fatal: Option<MatchError>, metadata: Metadata, stream: Stream): Outcome {
    Outcome(if fatal.Some? then Fatal(fatal.value) else NoRule, metadata, stream)
  }

  method CompleteMetadata(env: Env, md: Metadata, ghost stream: Stream)
    returns (metadata: Metadata, fatal: Option<MatchError>)
    ensures Part(fatal, metadata, stream) == Prelude(env, md, stream)
  {
    metadata, fatal := md, None;
    if metadata.processInfo.None? {
      metadata := metadata.(processInfo := env.findProcess(metadata));
    }
    var addr := metadata.destination.addr;
    if addr.Some? && env.isFakeIP(addr.value) {
      var domain := env.fakeDomain(addr.value);
      if domain.None? {
        return metadata, Some(MissingFakeIPRecord);
      }
      if domain.value != "" {
        metadata := metadata.(originDestination := metadata.destination);
        metadata := metadata.(destination := Socksaddr(None, domain.value, metadata.destination.port));
        metadata := metadata.(fakeIP := true);
      }
    } else if metadata.domain == "" {
      var domain := env.reverseMapped(addr);
      if domain.Some? {
        metadata := metadata.(domain := domain.value);
      }
    }
    match metadata.destination.addr {
      case Some(V4(_)) => metadata := metadata.(ipVersion := 4);
      case Some(V6(_)) => metadata := metadata.(ipVersion := 6);
      case None =>
    }
  }

  method ApplyLegacy(env: Env, md: Metadata, stream0: Stream, preMatch: bool)
    returns (metadata: Metadata, stream: Stream, fatal: Option<MatchError>)
    ensures Part(fatal, metadata, stream) == Legacy(env, md, stream0, preMatch)
  {
    metadata, stream, fatal := md, stream0, None;
    if metadata.inbound != NO_INBOUND_OPTIONS {
      if !preMatch && metadata.inbound.sniff {
        var s := env.legacySniff(metadata.inbound.overrideDestination, metadata, stream);
        metadata, stream, fatal := Learn(metadata, s), s.stream, s.failed;
        if fatal.Some? {
          return;
        }
      }
      if metadata.inbound.strategy.Some? && metadata.destination.fqdn != "" {
        var addresses := env.legacyLookup(metadata.inbound.strategy.value, metadata);
        if addresses.Err? {
          return metadata, stream, Some(addresses.error);
        }
        metadata := metadata.(destinationAddresses := addresses.value);
      }
      if metadata.inbound.udpDisableUnmapping {
        metadata := metadata.(options := metadata.options.(udpDisableUnmapping := true));
      }
      metadata := metadata.(inbound := NO_INBOUND_OPTIONS);
    }
  }

  /** The loop over the rules, updating metadata and buffers as it goes. */
  method MatchRule(env: Env, rules: seq<Action>, md0: Metadata, stream0: Stream, preMatch: bool, bypass: bool)
    returns (selected: Option<nat>, metadata: Metadata, stream: Stream, fatal: Option<MatchError>)
    ensures Outcome(
              if fatal.Some? then Fatal(fatal.value) else if selected.Some? then Selected(selected.value) else NoRule,
              metadata, stream)
         == Match(env, rules, md0, stream0, preMatch, bypass)
  {
    hide TakeRule, Prelude, Legacy;
    selected, stream := None, stream0;
    metadata, fatal := CompleteMetadata(env, md0, stream0);
    if fatal.Some? {
      return;
    }
    metadata, stream, fatal := ApplyLegacy(env, metadata, stream0, preMatch);
    if fatal.Some? {
      return;
    }
    for i := 0 to |rules|
      invariant selected.None? && fatal.None?
      invariant Match(env, rules, md0, stream0, preMatch, bypass)
          == Evaluate(env, rules, i, metadata, stream, preMatch, bypass)
    {
      if env.matches(i, metadata) {
        var final;
        metadata, stream, final, fatal := ApplyRule(env, rules[i], i, metadata, stream, preMatch, bypass);
        if fatal.Some? {
          return;
        }
        if final {
          selected := Some(i);
          return;
        }
      }
    }
  }

  // ----- where the evaluation ends -----

  /** Route, reject and hijack rules are final, and bypass rules unless they name no outbound and none is supported. */
  predicate IsFinal(a: Action, bypass: bool) {
    a.Route? || a.Reject? || a.HijackDNS? || (a.Bypass? && (bypass || a.outbound != ""))
  }

  /** What one matched rule comes to, and what it has to do with the connection and the addresses. */
  lemma MatchedRule(env: Env, a: Action, i: nat, md: Metadata, stream: Stream, preMatch: bool, bypass: bool)
    ensures var turn := TakeRule(env, a, i, md, stream, preMatch, bypass);
            && (IsFinal(a, bypass) ==>
                  turn == Stop(Outcome(Selected(i), if a.Route? then Apply(md, a) else md, stream)))
            && (a.Sniff? && preMatch ==>
                  turn == if md.network == Icmp then GoOn(md, stream) else Stop(Outcome(Selected(i), md, stream)))
            && (a.Sniff? && !preMatch ==>
                  var s := env.sniff(a.sniffer, md, stream);
                  var told := md.(protocol := s.protocol, domain := s.domain, destination := s.destination,
                      others := s.others);
                  turn == if s.failed.Some? then Stop(Outcome(Fatal(s.failed.value), told, s.stream))
                          else GoOn(told, s.stream))
            && (a.Resolve? && LooksUp(md) ==>
                  match env.lookup(a.server, md)
                  case Err(e) => turn == Stop(Outcome(Fatal(e), md, stream))
                  case Ok(ips) => turn == GoOn(md.(destinationAddresses := ips), stream))
            && (a.Resolve? && !LooksUp(md) ==> turn == GoOn(md, stream))
            && (a.SetOptions? ==> turn == GoOn(Apply(md, a), stream))
            && (!IsFinal(a, bypass) && (a.Direct? || a.Predefined? || a.Bypass?) ==> turn == GoOn(md, stream))
  {
  }

  /** What there is before every rule from `i` on to before rule `k`. */
  datatype Place = Place(metadata: Metadata, stream: Stream)

  /**
   The rules from `i` on up to before `k` are gone through in order, each on what the one before
   left: passed over if it does not match, and going on if it does.
   */
  ghost predicate GoneThrough(
    env: Env, rules: seq<Action>, i: nat, k: nat, trail: seq<Place>, preMatch: bool, bypass: bool)
  {
    && i <= k <= |rules| && |trail| == k - i + 1
    && forall n: nat :: n < k - i ==> OneOn(env, rules, i + n, trail[n], trail[n + 1], preMatch, bypass)
  }

  predicate OneOn(env: Env, rules: seq<Action>, j: nat, here: Place, next: Place, preMatch: bool, bypass: bool)
    requires j < |rules|
  {
    if !env.matches(j, here.metadata) then next == here
    else TakeRule(env, rules[j], j, here.metadata, here.stream, preMatch, bypass) == GoOn(next.metadata, next.stream)
  }

  /**
   An evaluation goes through the rules in order and ends at the first that matches and does not go
   on, with what that rule makes of it; or behind all of them, with what they left.
   */
  ghost predicate EndsAt(
    env: Env, rules: seq<Action>, i: nat, k: nat, trail: seq<Place>, preMatch: bool, bypass: bool, o: Outcome)
  {
    && GoneThrough(env, rules, i, k, trail, preMatch, bypass)
    && var last := trail[k - i];
       if k == |rules| then o == Outcome(NoRule, last.metadata, last.stream)
       else
         env.matches(k, last.metadata)
         && TakeRule(env, rules[k], k, last.metadata, last.stream, preMatch, bypass) == Stop(o)
  }

  lemma {:induction false} EvaluationEnds(env: Env, rules: seq<Action>, i: nat, md: Metadata, stream: Stream,
      preMatch: bool, bypass: bool)
      returns (k: nat, trail: seq<Place>)
    requires i <= |rules|
    ensures EndsAt(env, rules, i, k, trail, preMatch, bypass, Evaluate(env, rules, i, md, stream, preMatch, bypass))
    ensures trail[0] == Place(md, stream)
    decreases |rules| - i
  {
    hide TakeRule;
    var here := Place(md, stream);
    if i == |rules| {
      return i, [here];
    }
    var turn := TakeRule(env, rules[i], i, md, stream, preMatch, bypass);
    if env.matches(i, md) && turn.Stop? {
      return i, [here];
    }
    var next := if env.matches(i, md) then Place(turn.metadata, turn.stream) else here;
    var later;
    k, later := EvaluationEnds(env, rules, i + 1, next.metadata, next.stream, preMatch, bypass);
    trail := [here] + later;
    forall n: nat | n < k - i ensures OneOn(env, rules, i + n, trail[n], trail[n + 1], preMatch, bypass) {
      if n > 0 {
        assert OneOn(env, rules, i + 1 + (n - 1), later[n - 1], later[n], preMatch, bypass);
      }
    }
  }

  /** Prelude and legacy options do the same whatever the rules are, and the rules go on from there. */
  lemma RulesComeLast(env: Env, rules: seq<Action>, md: Metadata, stream: Stream, preMatch: bool, bypass: bool)
    ensures var bare := Match(env, [], md, stream, preMatch, bypass);
            Match(env, rules, md, stream, preMatch, bypass)
            == if bare.verdict.Fatal? then bare
               else Evaluate(env, rules, 0, bare.metadata, bare.stream, preMatch, bypass)
  {
    LegacySelectsNothing(env, Prelude(env, md, stream).metadata, stream, preMatch);
  }

  /** Without legacy options and rules, a match is what the prelude completes. */
  lemma BareMatch(env: Env, md: Metadata, stream: Stream, preMatch: bool, bypass: bool)
    requires md.inbound == NO_INBOUND_OPTIONS
    ensures var o := Match(env, [], md, stream, preMatch, bypass);
            && (o.verdict == Fatal(MissingFakeIPRecord) <==>
                  Fake(env, md) && env.fakeDomain(md.destination.addr.value).None?)
            && (o.verdict != Fatal(MissingFakeIPRecord) ==> o.verdict == NoRule)
            && (Named(env, md).Some? ==>
                  && o.metadata.destination == Socksaddr(None, Named(env, md).value, md.destination.port)
                  && o.metadata.originDestination == md.destination && o.metadata.fakeIP)
            && (Named(env, md).None? ==>
                  && o.metadata.destination == md.destination
                  && o.metadata.originDestination == md.originDestination && o.metadata.fakeIP == md.fakeIP)
  {
    PreludeCompletes(env, md, stream);
    PreludeKeeps(env, md, stream);
  }

  lemma LegacySelectsNothing(env: Env, md: Metadata, stream: Stream, preMatch: bool)
    ensures !Legacy(env, md, stream, preMatch).verdict.Selected?
  {
  }

  // ----- pre-match refines the full match -----

  predicate EmptyBypass(a: Action) {
    a.Bypass? && a.outbound == ""
  }

  /** Pre-match ended on a rule whose effect needs the connection, or that only pre-match may take. */
  predicate Deferred(rules: seq<Action>, o: Outcome) {
    && o.verdict.Selected? && o.verdict.index < |rules|
    && (rules[o.verdict.index].Sniff? || EmptyBypass(rules[o.verdict.index]))
  }

  lemma {:induction false} SelectedLater(env: Env, rules: seq<Action>, i: nat, md: Metadata, stream: Stream,
      preMatch: bool, bypass: bool)
    ensures var o := Evaluate(env, rules, i, md, stream, preMatch, bypass);
            && (o.verdict.Selected? ==> i <= o.verdict.index < |rules|) && (preMatch ==> o.stream == stream)
    decreases |rules| - i
  {
    if i < |rules| {
      var turn := TakeRule(env, rules[i], i, md, stream, preMatch, bypass);
      if !env.matches(i, md) {
        SelectedLater(env, rules, i + 1, md, stream, preMatch, bypass);
      } else if turn.GoOn? {
        SelectedLater(env, rules, i + 1, turn.metadata, turn.stream, preMatch, bypass);
      }
    }
  }

  /**
   From any rule on, a pre-match with either bypass flag and the full match, which has none,
   agree on everything exactly when pre-match did not end on a sniff rule or an empty bypass.
   Otherwise the full match goes on, from the metadata pre-match ended with, past that rule.
   */
  lemma {:induction false} RulesAgree(env: Env, rules: seq<Action>, i: nat, md: Metadata, stream: Stream, bypass: bool)
    requires md.network != Icmp
    ensures var pre, full := Evaluate(env, rules, i, md, stream, true, bypass),
        Evaluate(env, rules, i, md, stream, false, false);
            && (full == pre <==> !Deferred(rules, pre))
            && (Deferred(rules, pre) && full.verdict.Selected? ==> full.verdict.index > pre.verdict.index)
            && (Deferred(rules, pre) && rules[pre.verdict.index].Sniff? ==>
                env.matches(pre.verdict.index, pre.metadata)
                && full == Evaluate(env, rules, pre.verdict.index, pre.metadata, stream, false, false))
    decreases |rules| - i
  {
    if i < |rules| {
      if !env.matches(i, md) {
        RulesAgree(env, rules, i + 1, md, stream, bypass);
      } else {
        var turn := TakeRule(env, rules[i], i, md, stream, true, bypass);
        if turn.GoOn? {
          assert turn == TakeRule(env, rules[i], i, md, stream, false, false);
          RulesAgree(env, rules, i + 1, turn.metadata, turn.stream, bypass);
        } else {
          SelectedLater(env, rules, i, md, stream, false, false);
          var fullTurn := TakeRule(env, rules[i], i, md, stream, false, false);
          if fullTurn.GoOn? {
            SelectedLater(env, rules, i + 1, fullTurn.metadata, fullTurn.stream, false, false);
          }
        }
      }
    }
  }

  /**
   For a connection that is not ICMP and has no legacy sniffing, pre-match is a fast form of
   the full match: same rule or none, same error, same final metadata, and nothing read, exactly
   when pre-match did not end on a sniff rule or on an empty bypass only it may take.
   */
  lemma PreMatchRefinesMatch(env: Env, rules: seq<Action>, md: Metadata, stream: Stream, bypass: bool)
    requires md.network != Icmp && !md.inbound.sniff
    ensures var pre, full := Match(env, rules, md, stream, true, bypass), Match(env, rules, md, stream, false, false);
            && (full == pre <==> !Deferred(rules, pre))
            && pre.stream == stream
            && (!bypass ==> Deferred(rules, pre) ==> rules[pre.verdict.index].Sniff?)
            && (Deferred(rules, pre) && full.verdict.Selected? ==> full.verdict.index > pre.verdict.index)
  {
    var prelude := Prelude(env, md, stream);
    PreludeKeeps(env, md, stream);
    if !prelude.verdict.Fatal? {
      var legacy := Legacy(env, prelude.metadata, stream, true);
      assert legacy == Legacy(env, prelude.metadata, stream, false);
      if !legacy.verdict.Fatal? {
        RulesAgree(env, rules, 0, legacy.metadata, legacy.stream, bypass);
        SelectedLater(env, rules, 0, legacy.metadata, legacy.stream, true, bypass);
        NoBypassWithoutFlag(env, rules, 0, legacy.metadata, legacy.stream);
      }
    }
  }

  lemma {:induction false} NoBypassWithoutFlag(env: Env, rules: seq<Action>, i: nat, md: Metadata, stream: Stream)
    ensures var o := Evaluate(env, rules, i, md, stream, true, false);
            o.verdict.Selected? ==> o.verdict.index < |rules| && !EmptyBypass(rules[o.verdict.index])
    decreases |rules| - i
  {
    if i < |rules| {
      var turn := TakeRule(env, rules[i], i, md, stream, true, false);
      if !env.matches(i, md) {
        NoBypassWithoutFlag(env, rules, i + 1, md, stream);
      } else if turn.GoOn? {
        NoBypassWithoutFlag(env, rules, i + 1, turn.metadata, turn.stream);
      }
    }
  }

  // ----- which rules change the metadata -----

  function MetadataAfter(turn: Turn): Metadata {
    if turn.GoOn? then turn.metadata else turn.outcome.metadata
  }

  /** Neither an override nor any option is configured. */
  predicate SetsNothing(r: RouteOptions) {
    && !r.overrideAddress.IsValid() && r.overridePort == 0
    && r.options.networkStrategy.None? && r.options.networkType == [] && r.options.fallbackNetworkType == []
    && r.options.fallbackDelay == 0 && r.options.udpTimeout <= 0
    && !r.options.udpDisableUnmapping && !r.options.udpConnect
    && !r.options.tlsFragment && !r.options.tlsRecordFragment
  }

  /** Nothing it does is written to the metadata; what a bypass rule is configured with makes no difference. */
  predicate Idle(a: Action, preMatch: bool) {
    match a
    case Route(_, r) => SetsNothing(r)
    case SetOptions(r) => SetsNothing(r)
    case Sniff(_) => preMatch
    case Resolve(_) => false
    case _ => true
  }

  ghost predicate KeepsMetadata(a: Action, preMatch: bool) {
    forall env, i, md, stream, bypass ::
      MetadataAfter(TakeRule(env, a, i, md, stream, preMatch, bypass)) == md
  }

  /** A matched rule leaves every metadata as it was exactly when it is idle, as bypass rules are. */
  lemma WhichRulesKeepMetadata(a: Action, preMatch: bool)
    ensures KeepsMetadata(a, preMatch) <==> Idle(a, preMatch)
    ensures a.Bypass? ==> KeepsMetadata(a, preMatch)
  {
    if !Idle(a, preMatch) {
      var env, md, stream := BusyRuleChanges(a, preMatch);
      assert MetadataAfter(TakeRule(env, a, 0, md, stream, preMatch, false)) != md;
    }
  }

  /** A metadata that the rule changes when it matches. */
  lemma BusyRuleChanges(a: Action, preMatch: bool) returns (env: Env, md: Metadata, stream: Stream)
    requires !Idle(a, preMatch)
    ensures MetadataAfter(TakeRule(env, a, 0, md, stream, preMatch, false)) != md
  {
    stream := Stream([], []);
    var told := Sniffed("tls", "", NO_ADDRESS, [], stream, None);
    env := Env((i, m) => true, m => None, ip => false, ip => None, ip => None, (server, m) => Ok([]),
      (strategy, m) => Ok([]), (sniffer, m, s) => told, (overrides, m, s) => told);
    var unset := Options(None, [], [], 0, false, false, 0, false, 0, false);
    md := Metadata(Tcp, Socksaddr(None, "host", 0), NO_ADDRESS, NO_ADDRESS, [V4(0)], "", "", None, false, 0,
      NO_INBOUND_OPTIONS, unset, []);
  }

  /** The same rule, but for what a bypass rule is configured with. */
  predicate SameButIgnored(a: Action, b: Action) {
    a == b || (a.Bypass? && b.Bypass? && a.outbound == b.outbound)
  }

  /** Whatever route options bypass rules carry, every evaluation comes out the same. */
  lemma {:induction false} BypassOptionsAreIgnored(env: Env, rules: seq<Action>, others: seq<Action>, i: nat,
      md: Metadata, stream: Stream, preMatch: bool, bypass: bool)
    requires |rules| == |others| && forall j :: 0 <= j < |rules| ==> SameButIgnored(rules[j], others[j])
    ensures Evaluate(env, rules, i, md, stream, preMatch, bypass)
         == Evaluate(env, others, i, md, stream, preMatch, bypass)
    decreases |rules| - i
  {
    if i < |rules| {
      var turn := TakeRule(env, rules[i], i, md, stream, preMatch, bypass);
      assert SameButIgnored(rules[i], others[i]);
      assert turn == TakeRule(env, others[i], i, md, stream, preMatch, bypass);
      hide TakeRule, SameButIgnored;
      if !env.matches(i, md) {
        BypassOptionsAreIgnored(env, rules, others, i + 1, md, stream, preMatch, bypass);
      } else if turn.GoOn? {
        BypassOptionsAreIgnored(env, rules, others, i + 1, turn.metadata, turn.stream, preMatch, bypass);
      }
    }
  }

  // ----- which rules decide the options -----

  function OptionsOf(a: Action): seq<Options> {
    if a.Route? || a.SetOptions? then [a.routeOptions.options] else []
  }

  /** The option sets of the rules that matched, in order; a bypass rule's are not among them. */
  function Applied(env: Env, rules: seq<Action>, i: nat, md: Metadata, stream: Stream, preMatch: bool,
      bypass: bool): seq<Options>
    decreases |rules| - i
  {
    if i >= |rules| then []
    else if !env.matches(i, md) then Applied(env, rules, i + 1, md, stream, preMatch, bypass)
    else
      OptionsOf(rules[i])
      + match TakeRule(env, rules[i], i, md, stream, preMatch, bypass)
        case Stop(_) => []
        case GoOn(md1, stream1) => Applied(env, rules, i + 1, md1, stream1, preMatch, bypass)
  }

  /** The last set in `sets` that `has` the option, or the initial options when none has it. */
  function Decider(has: Options -> bool, initial: Options, sets: seq<Options>): Options {
    if sets == [] then initial
    else if has(sets[|sets| - 1]) then sets[|sets| - 1]
    else Decider(has, initial, sets[..|sets| - 1])
  }

  predicate Any(has: Options -> bool, initial: Options, sets: seq<Options>) {
    has(initial) || exists o :: o in sets && has(o)
  }

  /** Every option is decided on its own: flags accumulate, the other options come from the last rule that sets them. */
  predicate DecidedBy(final: Options, initial: Options, sets: seq<Options>) {
    && final.networkStrategy == Decider((o: Options) => o.networkStrategy.Some?, initial, sets).networkStrategy
    && final.networkType == Decider((o: Options) => |o.networkType| > 0, initial, sets).networkType
    && final.fallbackNetworkType == Decider((o: Options) => |o.fallbackNetworkType| > 0, initial,
        sets).fallbackNetworkType
    && final.fallbackDelay == Decider((o: Options) => o.fallbackDelay != 0, initial, sets).fallbackDelay
    && final.udpTimeout == Decider((o: Options) => o.udpTimeout > 0, initial, sets).udpTimeout
    && final.tlsFragmentFallbackDelay == Decider((o: Options) => o.tlsFragment, initial, sets).tlsFragmentFallbackDelay
    && (final.udpDisableUnmapping <==> Any((o: Options) => o.udpDisableUnmapping, initial, sets))
    && (final.udpConnect <==> Any((o: Options) => o.udpConnect, initial, sets))
    && (final.tlsFragment <==> Any((o: Options) => o.tlsFragment, initial, sets))
    && (final.tlsRecordFragment <==> Any((o: Options) => o.tlsRecordFragment, initial, sets))
  }

  function FoldAll(initial: Options, sets: seq<Options>): Options {
    if sets == [] then initial else Fold(FoldAll(initial, sets[..|sets| - 1]), sets[|sets| - 1])
  }

  lemma AnyOfLast(has: Options -> bool, initial: Options, sets: seq<Options>)
    requires sets != []
    ensures Any(has, initial, sets) <==> Any(has, initial, sets[..|sets| - 1]) || has(sets[|sets| - 1])
  {
    assert sets == sets[..|sets| - 1] + [sets[|sets| - 1]];
  }

  lemma {:induction false} FoldDecides(initial: Options, sets: seq<Options>)
    ensures DecidedBy(FoldAll(initial, sets), initial, sets)
  {
    if sets != [] {
      FoldDecides(initial, sets[..|sets| - 1]);
      AnyOfLast((o: Options) => o.udpDisableUnmapping, initial, sets);
      AnyOfLast((o: Options) => o.udpConnect, initial, sets);
      AnyOfLast((o: Options) => o.tlsFragment, initial, sets);
      AnyOfLast((o: Options) => o.tlsRecordFragment, initial, sets);
    }
  }

  lemma {:induction false} FoldFirst(initial: Options, first: Options, sets: seq<Options>)
    ensures FoldAll(initial, [first] + sets) == FoldAll(Fold(initial, first), sets)
  {
    var all := [first] + sets;
    if sets == [] {
      assert all[..0] == [] && all[0] == first;
      assert FoldAll(initial, all) == Fold(FoldAll(initial, all[..0]), all[0]);
    } else {
      assert all[..|all| - 1] == [first] + sets[..|sets| - 1];
      FoldFirst(initial, first, sets[..|sets| - 1]);
    }
  }

  lemma TurnFolds(env: Env, a: Action, i: nat, md: Metadata, stream: Stream, preMatch: bool, bypass: bool)
    ensures var turn := TakeRule(env, a, i, md, stream, preMatch, bypass);
            (if turn.GoOn? then turn.metadata else turn.outcome.metadata).options == FoldAll(md.options, OptionsOf(a))
  {
    assert OptionsOf(a) == [] || OptionsOf(a)[..0] == [];
  }

  lemma {:induction false} FoldRest(initial: Options, a: Action, rest: seq<Options>)
    ensures FoldAll(initial, OptionsOf(a) + rest) == FoldAll(FoldAll(initial, OptionsOf(a)), rest)
  {
    if OptionsOf(a) == [] {
      assert OptionsOf(a) + rest == rest;
    } else {
      FoldFirst(initial, OptionsOf(a)[0], rest);
      assert OptionsOf(a)[..0] == [];
    }
  }

  lemma {:induction false} EvaluateFolds(env: Env, rules: seq<Action>, i: nat, md: Metadata, stream: Stream,
      preMatch: bool, bypass: bool)
    ensures Evaluate(env, rules, i, md, stream, preMatch, bypass).metadata.options
            == FoldAll(md.options, Applied(env, rules, i, md, stream, preMatch, bypass))
    decreases |rules| - i
  {
    assert FoldAll(md.options, []) == md.options;
    hide FoldAll, TakeRule, OptionsOf;
    if i < |rules| && !env.matches(i, md) {
      EvaluateFolds(env, rules, i + 1, md, stream, preMatch, bypass);
    } else if i < |rules| {
      var turn := TakeRule(env, rules[i], i, md, stream, preMatch, bypass);
      TurnFolds(env, rules[i], i, md, stream, preMatch, bypass);
      if turn.GoOn? {
        EvaluateFolds(env, rules, i + 1, turn.metadata, turn.stream, preMatch, bypass);
        FoldRest(md.options, rules[i], Applied(env, rules, i + 1, turn.metadata, turn.stream, preMatch, bypass));
      } else {
        assert OptionsOf(rules[i]) + [] == OptionsOf(rules[i]);
      }
    }
  }

  /** Whatever ends the evaluation, the options it leaves are decided by the matched rules, the later ones first. */
  lemma LastMatchedRuleDecides(env: Env, rules: seq<Action>, md: Metadata, stream: Stream, preMatch: bool, bypass: bool)
    ensures DecidedBy(
      Evaluate(env, rules, 0, md, stream, preMatch, bypass).metadata.options,
      md.options,
      Applied(env, rules, 0, md, stream, preMatch, bypass))
  {
    EvaluateFolds(env, rules, 0, md, stream, preMatch, bypass);
    FoldDecides(md.options, Applied(env, rules, 0, md, stream, preMatch, bypass));
  }
}
