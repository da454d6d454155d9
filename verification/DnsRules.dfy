/**
 The DNS rules and the loops that go back to them. A rule with an address limit is asked
 again about the addresses that came back; when it does not accept them, matching goes on
 behind it, with the query options the caller gave in the first place.
 */
module DnsRules {
  import opened Wrappers

  type Ip = nat

  /** None as a strategy is as-is, None as a client subnet an invalid prefix. */
  datatype Options = Options(strategy: Option<nat>, lookupStrategy: Option<nat>, disableCache: bool,
      rewriteTtl: Option<nat>, clientSubnet: Option<nat>)

  /** What a rule sets; it has no lookup strategy. */
  datatype Setting = Setting(strategy: Option<nat>, disableCache: bool, rewriteTtl: Option<nat>,
      clientSubnet: Option<nat>)

  datatype Legacy = Legacy(strategy: Option<nat>, clientSubnet: Option<nat>)
  datatype Transport = Transport(tag: string, fakeIP: bool, legacy: Option<Legacy>)

  datatype Method = Default | Drop | Reply

  datatype Action =
    | Route(server: string, setting: Setting)
    | RouteOptions(setting: Setting)
    | Reject(how: Method)
    | Predefined(rcode: nat, addresses: seq<Ip>)

  datatype Rule = Rule(limited: bool, action: Action)

  /** The query as the rules see it; checking a response replaces the destination addresses. */
  datatype Metadata = Metadata(domain: string, queryType: nat, ipVersion: nat, addresses: seq<Ip>)

  datatype Reply = Answered(addresses: seq<Ip>) | Rejected(cached: bool) | Failed(code: nat)

  /** What the client came back with, and the addresses it had the rule check, if it did. */
  datatype Told = Told(reply: Reply, checked: Option<seq<Ip>>)

  /**
   `ask` is the client with its caches and transports; its third argument is the rule that checks
   the response. `cached` is what the client finds without a transport, in a cache all transports share.
   */
  datatype Env = Env(
    rules: seq<Rule>,
    transports: map<string, Transport>,
    fallback: Transport,
    defaultStrategy: Option<nat>,
    matches: (nat, Metadata) -> bool,
    ask: (Transport, Options, Option<nat>, Metadata) -> Told,
    cached: (Options, Metadata) -> Option<seq<Ip>>)

  /** The two loops: Exchange retries on a rejection, Lookup on any error, and only Exchange accepts fake addresses. */
  datatype Mode = Exchange(isAddressQuery: bool) | Lookup {
    predicate AddressQuery() {
      Lookup? || isAddressQuery
    }

    predicate Retries(reply: Reply) {
      if Exchange? then reply.Rejected? else !reply.Answered?
    }
  }

  // ----- one pass over the rules -----

  function Set(o: Options, s: Setting): Options {
    Options(
      if s.strategy.Some? then s.strategy else o.strategy,
      o.lookupStrategy,
      o.disableCache || s.disableCache,
      if s.rewriteTtl.Some? then s.rewriteTtl else o.rewriteTtl,
      if s.clientSubnet.Some? then s.clientSubnet else o.clientSubnet)
  }

  /**
   A route on top of the options so far: fake addresses are not cached, a legacy server fills in what is still
   unset.
   */
  function Routed(o: Options, s: Setting, t: Transport): Options {
    var own := Set(o, s);
    var cached := own.(disableCache := own.disableCache || t.fakeIP);
    if t.legacy.None? then cached
    else
      cached.(
        strategy := if cached.strategy.None? then t.legacy.value.strategy else cached.strategy,
        clientSubnet := if cached.clientSubnet.None? then t.legacy.value.clientSubnet else cached.clientSubnet)
  }

  /** Rule `i` is looked at and matches. */
  predicate Applies(env: Env, mode: Mode, i: nat, md: Metadata)
    requires i < |env.rules|
  {
    (!env.rules[i].limited || mode.AddressQuery()) && env.matches(i, md)
  }

  predicate Usable(env: Env, mode: Mode, server: string) {
    server in env.transports && (!env.transports[server].fakeIP || mode.Exchange?)
  }

  /** Rule `i` ends the pass. */
  predicate Decides(env: Env, mode: Mode, i: nat, md: Metadata)
    requires i < |env.rules|
  {
    && Applies(env, mode, i, md)
    && !env.rules[i].action.RouteOptions?
    && (env.rules[i].action.Route? ==> Usable(env, mode, env.rules[i].action.server))
  }

  datatype Picked = Picked(transport: Option<Transport>, rule: Option<nat>, options: Options)

  function Pick(env: Env, mode: Mode, i: nat, md: Metadata, o: Options): Picked
    decreases |env.rules| - i
  {
    if i >= |env.rules| then Picked(Some(env.fallback), None, o)
    else if !Applies(env, mode, i, md) then Pick(env, mode, i + 1, md, o)
    else
      match env.rules[i].action
      case Route(server, s) =>
        if Usable(env, mode, server)
        then Picked(Some(env.transports[server]), Some(i), Routed(o, s, env.transports[server]))
        else Pick(env, mode, i + 1, md, o)
      case RouteOptions(s) => Pick(env, mode, i + 1, md, Set(o, s))
      case _ => Picked(None, Some(i), o)
  }

  /** The loop over the rules behind the last one tried, which is -1 at first. */
  method MatchDNS(env: Env, mode: Mode, ruleIndex: int, md: Metadata, given: Options)
    returns (transport: Option<Transport>, rule: Option<nat>, options: Options)
    requires ruleIndex >= -1
    ensures Picked(transport, rule, options) == Pick(env, mode, ruleIndex + 1, md, given)
  {
    options := given;
    var current := 0;
    if ruleIndex != -1 {
      current := ruleIndex + 1;
    }
    while current < |env.rules|
      invariant Pick(env, mode, current, md, options) == Pick(env, mode, ruleIndex + 1, md, given)
      decreases |env.rules| - current
    {
      if (env.rules[current].limited && !mode.AddressQuery()) || !env.matches(current, md) {
        current := current + 1;
        continue;
      }
      match env.rules[current].action {
        case Route(server, s) =>
          if server in env.transports {
            var found := env.transports[server];
            if !found.fakeIP || mode.Exchange? {
              options := Set(options, s);
              if found.fakeIP {
                options := options.(disableCache := true);
              }
              if found.legacy.Some? {
                if options.strategy.None? {
                  options := options.(strategy := found.legacy.value.strategy);
                }
                if options.clientSubnet.None? {
                  options := options.(clientSubnet := found.legacy.value.clientSubnet);
                }
              }
              return Some(found), Some(current), options;
            }
          }
        case RouteOptions(s) =>
          options := Set(options, s);
        case Reject(_) =>
          return None, Some(current), options;
        case Predefined(_, _) =>
          return None, Some(current), options;
      }
      current := current + 1;
    }
    return Some(env.fallback), None, options;
  }

  /** The settings of the route-options rules among the applying ones from `i` up to `j`. */
  function SettingsBetween(env: Env, mode: Mode, i: nat, j: nat, md: Metadata): seq<Setting>
    requires j <= |env.rules|
    decreases j - i
  {
    if i >= j then []
    else
      (if Applies(env, mode, i, md) && env.rules[i].action.RouteOptions? then [env.rules[i].action.setting] else [])
      + SettingsBetween(env, mode, i + 1, j, md)
  }

  function SetAll(o: Options, settings: seq<Setting>): Options
    decreases settings
  {
    if settings == [] then o else SetAll(Set(o, settings[0]), settings[1..])
  }

  /**
   A rule decides when it matches, is asked at all, and either answers by itself or routes to a
   server that is there; rules with an address limit are asked about addresses only, and only an
   exchange can use a server of fake ones.
   */
  lemma WhichRulesDecide(env: Env, mode: Mode, i: nat, md: Metadata)
    requires i < |env.rules|
    ensures Decides(env, mode, i, md) <==>
              && env.matches(i, md)
              && (env.rules[i].limited ==> mode == Lookup || mode == Exchange(true))
              && match env.rules[i].action
                 case Route(server, _) =>
                   server in env.transports && (env.transports[server].fakeIP ==> mode.Exchange?)
                 case RouteOptions(_) => false
                 case Reject(_) => true
                 case Predefined(_, _) => true
  {
  }

  /** Which replies make the loops go back to the rules: a rejected one, and for a lookup any error. */
  lemma WhichRepliesRetry(mode: Mode, reply: Reply)
    ensures mode.Retries(reply) <==> reply.Rejected? || (reply.Failed? && mode == Lookup)
  {
  }

  predicate LastWith(settings: seq<Setting>, has: Setting -> bool, k: nat) {
    k < |settings| && has(settings[k]) && forall j :: k < j < |settings| ==> !has(settings[j])
  }

  ghost predicate NoneWith(settings: seq<Setting>, has: Setting -> bool) {
    forall s :: s in settings ==> !has(s)
  }

  /** Of several settings the last one that says something decides, and caching stays off once it is off. */
  lemma {:induction false} LastSettingDecides(o: Options, settings: seq<Setting>)
    ensures var all := SetAll(o, settings);
            var strategy, ttl, subnet := (s: Setting) => s.strategy.Some?, (s: Setting) => s.rewriteTtl.Some?,
                (s: Setting) => s.clientSubnet.Some?;
            && all.lookupStrategy == o.lookupStrategy
            && (all.disableCache <==> o.disableCache || exists s :: s in settings && s.disableCache)
            && (NoneWith(settings, strategy) ==> all.strategy == o.strategy)
            && (NoneWith(settings, ttl) ==> all.rewriteTtl == o.rewriteTtl)
            && (NoneWith(settings, subnet) ==> all.clientSubnet == o.clientSubnet)
            && (forall k: nat :: LastWith(settings, strategy, k) ==> all.strategy == settings[k].strategy)
            && (forall k: nat :: LastWith(settings, ttl, k) ==> all.rewriteTtl == settings[k].rewriteTtl)
            && (forall k: nat :: LastWith(settings, subnet, k) ==> all.clientSubnet == settings[k].clientSubnet)
    decreases settings
  {
    if settings != [] {
      var first, rest := settings[0], settings[1..];
      var next := Set(o, first);
      assert settings == [first] + rest;
      LastSettingDecides(next, rest);
      LastOfRest(settings, (s: Setting) => s.strategy.Some?);
      LastOfRest(settings, (s: Setting) => s.rewriteTtl.Some?);
      LastOfRest(settings, (s: Setting) => s.clientSubnet.Some?);
      hide SetAll;
      assert SetAll(o, settings) == SetAll(next, rest) by {
        SetFirst(o, settings);
      }
    }
  }

  lemma SetFirst(o: Options, settings: seq<Setting>)
    requires settings != []
    ensures SetAll(o, settings) == SetAll(Set(o, settings[0]), settings[1..])
  {
  }

  /** The last one is the last of the rest, or the first when the rest has none. */
  lemma LastOfRest(settings: seq<Setting>, has: Setting -> bool)
    requires settings != []
    ensures NoneWith(settings, has) <==> !has(settings[0]) && NoneWith(settings[1..], has)
    ensures forall k: nat :: LastWith(settings, has, k) ==>
              if k == 0 then NoneWith(settings[1..], has) else LastWith(settings[1..], has, k - 1)
  {
    var rest := settings[1..];
    assert settings == [settings[0]] + rest;
    assert forall j :: 0 <= j < |rest| ==> rest[j] == settings[j + 1];
  }

  /**
   A route's own settings go before those on the way, and these before those of a legacy server;
   fake addresses are never cached.
   */
  lemma RoutedDecides(o: Options, s: Setting, t: Transport)
    ensures var r, own := Routed(o, s, t), SetAll(o, [s]);
            && r.lookupStrategy == o.lookupStrategy && r.rewriteTtl == own.rewriteTtl
            && (r.disableCache <==> own.disableCache || t.fakeIP)
            && r.strategy == (if own.strategy.Some? then own.strategy
                              else if t.legacy.Some? then t.legacy.value.strategy else None)
            && r.clientSubnet == (if own.clientSubnet.Some? then own.clientSubnet
                                  else if t.legacy.Some? then t.legacy.value.clientSubnet else None)
  {
    assert SetAll(o, [s]) == SetAll(Set(o, s), [s][1..]);
  }

  /**
   A pass picks the first rule from `i` on that decides and the default transport when there is
   none; the options are the given ones with exactly the settings of the route-options rules on
   the way, in order, and on a route its own on top.
   */
  ghost predicate FirstDecider(env: Env, mode: Mode, i: nat, md: Metadata, o: Options, p: Picked) {
    match p.rule
    case None =>
      && (forall j: nat :: i <= j < |env.rules| ==> !Decides(env, mode, j, md))
      && p.transport == Some(env.fallback)
      && p.options == SetAll(o, SettingsBetween(env, mode, i, |env.rules|, md))
    case Some(k) =>
      && i <= k < |env.rules| && Decides(env, mode, k, md)
      && (forall j: nat :: i <= j < k ==> !Decides(env, mode, j, md))
      && var so_far := SetAll(o, SettingsBetween(env, mode, i, k, md));
         match env.rules[k].action
         case Route(server, s) => p.transport == Some(env.transports[server])
             && p.options == Routed(so_far, s, env.transports[server])
         case _ => p.transport == None && p.options == so_far
  }

  lemma {:induction false} PickIsFirst(env: Env, mode: Mode, i: nat, md: Metadata, o: Options)
    ensures FirstDecider(env, mode, i, md, o, Pick(env, mode, i, md, o))
    decreases |env.rules| - i
  {
    if i < |env.rules| && !Decides(env, mode, i, md) {
      PickIsFirst(env, mode, i + 1, md, Adjusted(env, mode, i, md, o));
      PassOver(env, mode, i, md, o, Pick(env, mode, i + 1, md, Adjusted(env, mode, i, md, o)));
      hide FirstDecider;
    }
  }

  function Adjusted(env: Env, mode: Mode, i: nat, md: Metadata, o: Options): Options
    requires i < |env.rules|
  {
    if Applies(env, mode, i, md) && env.rules[i].action.RouteOptions? then Set(o, env.rules[i].action.setting) else o
  }

  lemma PassOver(env: Env, mode: Mode, i: nat, md: Metadata, o: Options, p: Picked)
    requires i < |env.rules| && !Decides(env, mode, i, md)
    requires FirstDecider(env, mode, i + 1, md, Adjusted(env, mode, i, md, o), p)
    ensures FirstDecider(env, mode, i, md, o, p)
  {
    hide Decides, Set, Routed;
    var upTo := if p.rule.Some? then p.rule.value else |env.rules|;
    var rest := SettingsBetween(env, mode, i + 1, upTo, md);
    if Applies(env, mode, i, md) && env.rules[i].action.RouteOptions? {
      assert ([env.rules[i].action.setting] + rest)[1..] == rest;
    } else {
      assert [] + rest == rest;
    }
  }

  // ----- going back to the rules -----

  /** One query put to the client: which rule sent it where, with which options, and what came of it. */
  datatype Attempt = Attempt(rule: Option<nat>, transport: Transport, options: Options, before: Metadata, told: Told)

  datatype Outcome =
    | Refused                            // answered by a reject rule of Exchange
    | Dropped
    | RejectedBy(rule: nat)              // a reject rule of Lookup
    | PredefinedBy(rule: nat)
    | CachedBy(rule: nat, addresses: seq<Ip>)   // a reject rule of method reply, with the answer in the cache
    | NilTransport(rule: nat)                   // the same without: the code calls a nil transport
    | Final(reply: Reply)                // what the last attempt brought

  datatype Run = Run(attempts: seq<Attempt>, outcome: Outcome)

  function After(a: Attempt): Metadata {
    if a.told.checked.Some? then a.before.(addresses := a.told.checked.value) else a.before
  }

  predicate Limited(env: Env, rule: Option<nat>) {
    rule.Some? && rule.value < |env.rules| && env.rules[rule.value].limited
  }

  function Defaulted(env: Env, o: Options): Options {
    if o.strategy.None? then o.(strategy := env.defaultStrategy) else o
  }

  /**
   How a run ends at a rule that is no route. A reject rule of method reply is passed over by
   Exchange, which goes on without a transport: all it can do is find the answer in the cache.
   */
  function OwnAnswer(env: Env, mode: Mode, p: Picked, md: Metadata): (own: Option<Outcome>)
    ensures own.Some? ==> p.rule.Some? && !own.value.Final?
  {
    if p.rule.None? || p.rule.value >= |env.rules| then None
    else
      match env.rules[p.rule.value].action
      case Reject(m) =>
        if mode.Lookup? then Some(RejectedBy(p.rule.value))
        else if m.Default? then Some(Refused)
        else if m.Drop? then Some(Dropped)
        else
          var found := env.cached(Defaulted(env, p.options), md);
          Some(if found.Some? then CachedBy(p.rule.value, found.value) else NilTransport(p.rule.value))
      case Predefined(_, _) => Some(PredefinedBy(p.rule.value))
      case _ => None
  }

  function TheAttempt(env: Env, p: Picked, md: Metadata): Attempt
    requires p.transport.Some?
  {
    var options := Defaulted(env, p.options);
    var check := if Limited(env, p.rule) then p.rule else None;
    Attempt(p.rule, p.transport.value, options, md, env.ask(p.transport.value, options, check, md))
  }

  function Resolve(env: Env, mode: Mode, start: nat, md: Metadata, o: Options): Run
    decreases |env.rules| - start
  {
    var p := Pick(env, mode, start, md, o);
    PickIsFirst(env, mode, start, md, o);
    if OwnAnswer(env, mode, p, md).Some? then Run([], OwnAnswer(env, mode, p, md).value)
    else
      RoutesHaveTransports(env, mode, start, md, o, p);
      var a := TheAttempt(env, p, md);
      if Limited(env, p.rule) && mode.Retries(a.told.reply) then
        var rest := Resolve(env, mode, p.rule.value + 1, After(a), o);
        Run([a] + rest.attempts, rest.outcome)
      else Run([a], Final(a.told.reply))
  }

  /** The retry loop; the rule index only ever goes up, so it ends. */
  method RetryLoop(env: Env, mode: Mode, md0: Metadata, options: Options)
      returns (outcome: Outcome, ghost attempts: seq<Attempt>)
    ensures outcome == Resolve(env, mode, 0, md0, options).outcome
    ensures attempts == Resolve(env, mode, 0, md0, options).attempts
  {
    hide Pick, Resolve, FirstDecider;
    var md := md0;
    var ruleIndex: int := -1;
    attempts := [];
    assert Run([] + Resolve(env, mode, 0, md, options).attempts, Resolve(env, mode, 0, md, options).outcome)
        == Resolve(env, mode, 0, md, options);
    while true
      invariant -1 <= ruleIndex
      invariant Resolve(env, mode, 0, md0, options) == Behind(attempts, Resolve(env, mode, ruleIndex + 1, md, options))
      decreases |env.rules| - ruleIndex
    {
      var transport, rule, dnsOptions := MatchDNS(env, mode, ruleIndex, md, options);
      ghost var p := Picked(transport, rule, dnsOptions);
      ResolveUnfolds(env, mode, ruleIndex + 1, md, options);
      if rule.Some? {
        var own := AnswerOf(env, mode, rule.value, dnsOptions, md);
        if own.Some? {
          assert attempts + [] == attempts;
          return own.value, attempts;
        }
      }
      ghost var a := TheAttempt(env, p, md);
      AttemptFields(env, p, md);
      hide TheAttempt, OwnAnswer;
      var check := if rule.Some? && env.rules[rule.value].limited then rule else None;
      if dnsOptions.strategy.None? {
        dnsOptions := dnsOptions.(strategy := env.defaultStrategy);
      }
      var told := env.ask(transport.value, dnsOptions, check, md);
      if told.checked.Some? {
        md := md.(addresses := told.checked.value);
      }
      attempts := attempts + [a];
      if check.None? || !mode.Retries(told.reply) {
        return Final(told.reply), attempts;
      }
      ruleIndex := rule.value;
    }
  }

  /** The rules that are no routes, case by case. */
  method AnswerOf(env: Env, mode: Mode, k: nat, options: Options, md: Metadata) returns (own: Option<Outcome>)
    requires k < |env.rules|
    ensures forall transport :: own == OwnAnswer(env, mode, Picked(transport, Some(k), options), md)
  {
    own := None;
    match env.rules[k].action {
      case Reject(m) =>
        if mode.Lookup? {
          return Some(RejectedBy(k));
        } else if m == Default {
          return Some(Refused);
        } else if m == Drop {
          return Some(Dropped);
        }
        var dnsOptions := options;
        if dnsOptions.strategy.None? {
          dnsOptions := dnsOptions.(strategy := env.defaultStrategy);
        }
        var found := env.cached(dnsOptions, md);
        own := Some(if found.Some? then CachedBy(k, found.value) else NilTransport(k));
      case Predefined(_, _) =>
        return Some(PredefinedBy(k));
      case _ =>
    }
  }

  function Behind(attempts: seq<Attempt>, rest: Run): Run {
    Run(attempts + rest.attempts, rest.outcome)
  }

  lemma AttemptFields(env: Env, p: Picked, md: Metadata)
    requires p.transport.Some?
    ensures var a := TheAttempt(env, p, md);
            && a.rule == p.rule && a.transport == p.transport.value && a.before == md
            && a.options == (if p.options.strategy.Some? then p.options
                             else p.options.(strategy := env.defaultStrategy))
            && a.told == env.ask(a.transport, a.options,
                 if p.rule.Some? && p.rule.value < |env.rules| && env.rules[p.rule.value].limited then p.rule else None,
                 md)
  {
  }

  lemma ResolveUnfolds(env: Env, mode: Mode, start: nat, md: Metadata, o: Options)
    ensures var p := Pick(env, mode, start, md, o);
            && (p.rule.Some? ==> start <= p.rule.value < |env.rules|)
            && (OwnAnswer(env, mode, p, md).Some? ==>
                  Resolve(env, mode, start, md, o) == Run([], OwnAnswer(env, mode, p, md).value))
            && (OwnAnswer(env, mode, p, md).None? ==>
                  && p.transport.Some?
                  && var a := TheAttempt(env, p, md);
                     Resolve(env, mode, start, md, o) ==
                       if Limited(env, p.rule) && mode.Retries(a.told.reply)
                       then Behind([a], Resolve(env, mode, p.rule.value + 1, After(a), o))
                       else Run([a], Final(a.told.reply)))
  {
    PickDecides(env, mode, start, md, o);
    var p := Pick(env, mode, start, md, o);
    if OwnAnswer(env, mode, p, md).None? {
      RoutesHaveTransports(env, mode, start, md, o, p);
    }
    hide Pick, FirstDecider, TheAttempt, OwnAnswer;
  }

  /** Whatever does not answer by itself has a transport. */
  lemma RoutesHaveTransports(env: Env, mode: Mode, i: nat, md: Metadata, o: Options, p: Picked)
    requires FirstDecider(env, mode, i, md, o, p) && OwnAnswer(env, mode, p, md).None?
    ensures p.transport.Some?
  {
  }

  lemma PickDecides(env: Env, mode: Mode, i: nat, md: Metadata, o: Options)
    ensures var p := Pick(env, mode, i, md, o);
            FirstDecider(env, mode, i, md, o, p) && (p.rule.Some? ==> i <= p.rule.value < |env.rules|)
  {
    PickIsFirst(env, mode, i, md, o);
  }

  // ----- whole runs -----

  /** The rule the pass behind attempt `j` started from, when the first pass started from `start`. */
  function PassStart(start: nat, attempts: seq<Attempt>, j: nat): nat
    requires j <= |attempts|
  {
    if j == 0 then start else if attempts[j - 1].rule.Some? then attempts[j - 1].rule.value + 1 else 0
  }

  function Seen(md: Metadata, attempts: seq<Attempt>, j: nat): Metadata
    requires j <= |attempts|
  {
    if j == 0 then md else After(attempts[j - 1])
  }

  ghost predicate Made(env: Env, mode: Mode, from: nat, seen: Metadata, o: Options, a: Attempt) {
    exists p :: FirstDecider(env, mode, from, seen, o, p) && p.transport.Some? && a == TheAttempt(env, p, seen)
  }

  /**
   Attempt `j` is made by the first deciding rule behind that of the attempt before, on the
   caller's own options with exactly the settings found on that way; and if it is not the last,
   its rule has an address limit and its reply was one to retry.
   */
  ghost predicate AttemptTrue(env: Env, mode: Mode, start: nat, md: Metadata, o: Options, attempts: seq<Attempt>,
      j: nat)
    requires j < |attempts|
  {
    var from, seen := PassStart(start, attempts, j), Seen(md, attempts, j);
    && Made(env, mode, from, seen, o, attempts[j])
    && (attempts[j].rule.Some? ==> from <= attempts[j].rule.value < |env.rules|)
    && (j + 1 < |attempts| ==> Limited(env, attempts[j].rule) && mode.Retries(attempts[j].told.reply))
  }

  ghost predicate AllTrue(env: Env, mode: Mode, start: nat, md: Metadata, o: Options, attempts: seq<Attempt>) {
    forall j: nat :: j < |attempts| ==> AttemptTrue(env, mode, start, md, o, attempts, j)
  }

  ghost predicate EndedBy(env: Env, mode: Mode, from: nat, seen: Metadata, o: Options, outcome: Outcome) {
    exists p :: FirstDecider(env, mode, from, seen, o, p) && OwnAnswer(env, mode, p, seen) == Some(outcome)
  }

  /** How a run ends: with what the last attempt brought, or with a rule behind it that answers by itself. */
  ghost predicate EndTrue(env: Env, mode: Mode, start: nat, md: Metadata, o: Options, run: Run) {
    var n := |run.attempts|;
    if run.outcome.Final? then
      && n > 0 && run.outcome.reply == run.attempts[n - 1].told.reply
      && !(Limited(env, run.attempts[n - 1].rule) && mode.Retries(run.outcome.reply))
    else
      && (n > 0 ==> Limited(env, run.attempts[n - 1].rule) && mode.Retries(run.attempts[n - 1].told.reply))
      && EndedBy(env, mode, PassStart(start, run.attempts, n), Seen(md, run.attempts, n), o, run.outcome)
  }

  lemma {:induction false} EveryAttemptIsTrue(env: Env, mode: Mode, start: nat, md: Metadata, o: Options)
    ensures var run := Resolve(env, mode, start, md, o);
            && AllTrue(env, mode, start, md, o, run.attempts)
            && EndTrue(env, mode, start, md, o, run)
    decreases |env.rules| - start
  {
    hide FirstDecider, Pick, Resolve, TheAttempt, OwnAnswer;
    var p := Pick(env, mode, start, md, o);
    PickDecides(env, mode, start, md, o);
    ResolveUnfolds(env, mode, start, md, o);
    var run := Resolve(env, mode, start, md, o);
    if OwnAnswer(env, mode, p, md).None? {
      var a := TheAttempt(env, p, md);
      AttemptFields(env, p, md);
      assert Made(env, mode, start, md, o, a);
      if Limited(env, p.rule) && mode.Retries(a.told.reply) {
        hide AllTrue, EndTrue;
        var rest := Resolve(env, mode, p.rule.value + 1, After(a), o);
        EveryAttemptIsTrue(env, mode, p.rule.value + 1, After(a), o);
        PrependTrue(env, mode, start, md, o, p, rest);
      }
    } else {
      assert EndedBy(env, mode, start, md, o, run.outcome);
    }
  }

  lemma PrependTrue(env: Env, mode: Mode, start: nat, md: Metadata, o: Options, p: Picked, rest: Run)
    requires FirstDecider(env, mode, start, md, o, p) && p.rule.Some? && p.transport.Some? && start <= p.rule.value
    requires Limited(env, p.rule) && mode.Retries(TheAttempt(env, p, md).told.reply)
    requires var a := TheAttempt(env, p, md);
             && AllTrue(env, mode, p.rule.value + 1, After(a), o, rest.attempts)
             && EndTrue(env, mode, p.rule.value + 1, After(a), o, rest)
    ensures var run := Behind([TheAttempt(env, p, md)], rest);
            && AllTrue(env, mode, start, md, o, run.attempts)
            && EndTrue(env, mode, start, md, o, run)
  {
    hide FirstDecider, TheAttempt;
    var a := TheAttempt(env, p, md);
    AttemptFields(env, p, md);
    var run := Behind([a], rest);
    assert Made(env, mode, start, md, o, a);
    hide Made;
    forall j: nat | j < |run.attempts| ensures AttemptTrue(env, mode, start, md, o, run.attempts, j) {
      if j > 0 {
        assert AttemptTrue(env, mode, p.rule.value + 1, After(a), o, rest.attempts, j - 1);
      }
    }
  }

  // ----- answers without a transport -----

  /** The description of a pass fixes what it picks. */
  lemma FirstDeciderIsUnique(env: Env, mode: Mode, i: nat, md: Metadata, o: Options, p: Picked, q: Picked)
    requires FirstDecider(env, mode, i, md, o, p) && FirstDecider(env, mode, i, md, o, q)
    ensures p == q
  {
    hide Decides, SettingsBetween, SetAll, Routed;
  }

  /** Every attempt was rejected, so the rules behind the last one had their turn. */
  predicate AllRejected(env: Env, mode: Mode, attempts: seq<Attempt>) {
    forall j :: 0 <= j < |attempts| ==> Limited(env, attempts[j].rule) && mode.Retries(attempts[j].told.reply)
  }

  /** Rule `k` answers by itself, and how: a rejection is a refusal, no answer at all, or the cache's answer. */
  predicate Says(env: Env, mode: Mode, k: nat, options: Options, seen: Metadata, outcome: Outcome) {
    && k < |env.rules|
    && var found := env.cached(if options.strategy.None? then options.(strategy := env.defaultStrategy) else options,
         seen);
       match outcome
       case Refused => mode.Exchange? && env.rules[k].action == Reject(Default)
       case Dropped => mode.Exchange? && env.rules[k].action == Reject(Drop)
       case CachedBy(i, addresses) =>
         i == k && mode.Exchange? && env.rules[k].action == Reject(Reply) && found == Some(addresses)
       case NilTransport(i) => i == k && mode.Exchange? && env.rules[k].action == Reject(Reply) && found.None?
       case RejectedBy(i) => i == k && mode.Lookup? && env.rules[k].action.Reject?
       case PredefinedBy(i) => i == k && env.rules[k].action.Predefined?
       case Final(_) => false
  }

  /**
   A run ends otherwise than with a reply exactly when every attempt was rejected and the first
   deciding rule behind the last of them answers by itself, and then with that answer.
   */
  lemma EndsExactly(env: Env, mode: Mode, start: nat, md: Metadata, o: Options, outcome: Outcome)
    requires !outcome.Final?
    ensures var run := Resolve(env, mode, start, md, o);
            var n := |run.attempts|;
            var from, seen := PassStart(start, run.attempts, n), Seen(md, run.attempts, n);
            run.outcome == outcome <==>
              && AllRejected(env, mode, run.attempts)
              && exists p :: FirstDecider(env, mode, from, seen, o, p) && p.rule.Some?
                   && Says(env, mode, p.rule.value, p.options, seen, outcome)
  {
    EveryAttemptIsTrue(env, mode, start, md, o);
    var run := Resolve(env, mode, start, md, o);
    hide Resolve;
    var n := |run.attempts|;
    var from, seen := PassStart(start, run.attempts, n), Seen(md, run.attempts, n);
    forall j | 0 <= j < n - 1 ensures Limited(env, run.attempts[j].rule) && mode.Retries(run.attempts[j].told.reply) {
      assert AttemptTrue(env, mode, start, md, o, run.attempts, j);
    }
    if AllRejected(env, mode, run.attempts) {
      assert EndedBy(env, mode, from, seen, o, run.outcome);
      var q :| FirstDecider(env, mode, from, seen, o, q) && OwnAnswer(env, mode, q, seen) == Some(run.outcome);
      forall p | FirstDecider(env, mode, from, seen, o, p) ensures p == q {
        FirstDeciderIsUnique(env, mode, from, seen, o, p, q);
      }
      hide FirstDecider;
      OwnAnswerSays(env, mode, q, seen, outcome);
    }
  }

  lemma OwnAnswerSays(env: Env, mode: Mode, p: Picked, md: Metadata, outcome: Outcome)
    ensures OwnAnswer(env, mode, p, md) == Some(outcome)
       <==> p.rule.Some? && Says(env, mode, p.rule.value, p.options, md, outcome)
  {
  }

  /**
   A run calls the nil transport at rule `k` exactly when every attempt was rejected, `k` is the
   first deciding rule behind the last of them, it is a reject rule of method reply, the query is
   an exchange, and the cache does not have the answer.
   */
  lemma NilTransportExactly(env: Env, mode: Mode, start: nat, md: Metadata, o: Options, k: nat)
    ensures var run := Resolve(env, mode, start, md, o);
            var n := |run.attempts|;
            var from, seen := PassStart(start, run.attempts, n), Seen(md, run.attempts, n);
            run.outcome == NilTransport(k) <==>
              && AllRejected(env, mode, run.attempts)
              && exists p :: FirstDecider(env, mode, from, seen, o, p) && p.rule == Some(k)
                   && mode.Exchange? && k < |env.rules| && env.rules[k].action == Reject(Reply)
                   && env.cached(Defaulted(env, p.options), seen).None?
  {
    EndsExactly(env, mode, start, md, o, NilTransport(k));
    hide Resolve, FirstDecider;
  }

  ghost predicate HasReplyRule(rules: seq<Rule>) {
    exists rule :: rule in rules && rule.action == Reject(Reply)
  }

  /** Some query can make the configuration call the nil transport, whatever rules match and whatever is cached. */
  ghost predicate CanCallNilTransport(env: Env) {
    exists matches, cached, mode, md, o ::
      Resolve(env.(matches := matches, cached := cached), mode, 0, md, o).outcome.NilTransport?
  }

  /** Of a configuration, exactly the reject rules of method reply lead there. */
  lemma ReplyRulesCallNilTransport(env: Env)
    ensures CanCallNilTransport(env) <==> HasReplyRule(env.rules)
  {
    forall matches, cached, mode, md, o |
        Resolve(env.(matches := matches, cached := cached), mode, 0, md, o).outcome.NilTransport?
      ensures HasReplyRule(env.rules)
    {
      var other := env.(matches := matches, cached := cached);
      var k := Resolve(other, mode, 0, md, o).outcome.rule;
      NilTransportExactly(other, mode, 0, md, o, k);
      assert env.rules[k] in env.rules;
    }
    if HasReplyRule(env.rules) {
      var rule :| rule in env.rules && rule.action == Reject(Reply);
      var k: nat :| k < |env.rules| && env.rules[k] == rule;
      OnlyReplyRuleMatches(env, k, Metadata("", 0, 0, []), Options(None, None, false, None, None));
    }
  }

  /** No rule but `k` matches, and nothing is cached. */
  function Only(env: Env, k: nat): Env {
    env.(matches := (i, md) => i == k, cached := (o, md) => None)
  }

  lemma OnlyReplyRuleMatches(env: Env, k: nat, md: Metadata, o: Options)
    requires k < |env.rules| && env.rules[k].action == Reject(Reply)
    ensures Resolve(Only(env, k), Exchange(true), 0, md, o) == Run([], NilTransport(k))
  {
    PickOnly(env, k, 0, md, o);
    hide Pick, FirstDecider;
  }

  lemma {:induction false} PickOnly(env: Env, k: nat, i: nat, md: Metadata, o: Options)
    requires i <= k < |env.rules| && env.rules[k].action == Reject(Reply)
    ensures Pick(Only(env, k), Exchange(true), i, md, o) == Picked(None, Some(k), o)
    decreases k - i
  {
    if i < k {
      PickOnly(env, k, i + 1, md, o);
    }
  }

  /** Every attempt sees the query as it was given, but for the addresses checked last. */
  lemma {:induction false} WhatAttemptsSee(env: Env, mode: Mode, md: Metadata, o: Options, j: nat)
    requires j < |Resolve(env, mode, 0, md, o).attempts|
    ensures var attempts := Resolve(env, mode, 0, md, o).attempts;
            var seen := attempts[j].before;
            && seen == md.(addresses := seen.addresses)
            && (j == 0 ==> seen.addresses == md.addresses)
            && (j > 0 ==>
                  seen.addresses == if attempts[j - 1].told.checked.Some? then attempts[j - 1].told.checked.value
                                    else attempts[j - 1].before.addresses)
    decreases j
  {
    hide Resolve, EndTrue, FirstDecider, TheAttempt;
    EveryAttemptIsTrue(env, mode, 0, md, o);
    var attempts := Resolve(env, mode, 0, md, o).attempts;
    assert AttemptTrue(env, mode, 0, md, o, attempts, j);
    var from, seen := PassStart(0, attempts, j), Seen(md, attempts, j);
    var p :| FirstDecider(env, mode, from, seen, o, p) && p.transport.Some? && attempts[j] == TheAttempt(env, p, seen);
    AttemptFields(env, p, seen);
    if j > 0 {
      WhatAttemptsSee(env, mode, md, o, j - 1);
    }
  }

  /**
   Every rule makes at most one attempt, in the order of the rules; whatever made an attempt before the last
   was rejected.
   */
  lemma {:induction false} AttemptsAreInOrder(env: Env, mode: Mode, md: Metadata, o: Options, j: nat, k: nat)
    requires j < k < |Resolve(env, mode, 0, md, o).attempts|
    ensures var attempts := Resolve(env, mode, 0, md, o).attempts;
            && Limited(env, attempts[j].rule) && mode.Retries(attempts[j].told.reply)
            && (attempts[k].rule.Some? ==> attempts[j].rule.value < attempts[k].rule.value)
    decreases k
  {
    hide Resolve, Made, EndTrue, FirstDecider;
    EveryAttemptIsTrue(env, mode, 0, md, o);
    var attempts := Resolve(env, mode, 0, md, o).attempts;
    assert AttemptTrue(env, mode, 0, md, o, attempts, j) && AttemptTrue(env, mode, 0, md, o, attempts, k);
    if j < k - 1 {
      assert AttemptTrue(env, mode, 0, md, o, attempts, k - 1);
      AttemptsAreInOrder(env, mode, md, o, j, k - 1);
    }
  }

  /** Rule `i` had its turn in pass `j`: it made the attempt and was rejected, or it was passed over. */
  ghost predicate HadItsTurn(env: Env, mode: Mode, start: nat, attempts: seq<Attempt>, i: nat, j: nat)
    requires i < |env.rules| && j < |attempts|
  {
    || (attempts[j].rule == Some(i) && env.rules[i].limited && mode.Retries(attempts[j].told.reply))
    || (PassStart(start, attempts, j) <= i && (attempts[j].rule.Some? ==> i < attempts[j].rule.value)
        && !Decides(env, mode, i, attempts[j].before))
  }

  ghost predicate HadATurn(env: Env, mode: Mode, start: nat, attempts: seq<Attempt>, i: nat)
    requires i < |env.rules|
  {
    exists j: nat :: j < |attempts| && HadItsTurn(env, mode, start, attempts, i, j)
  }

  /** The default transport is asked at most once, last, and only after every rule had its turn. */
  lemma {:induction false} DefaultComesLast(env: Env, mode: Mode, start: nat, md: Metadata, o: Options, d: nat)
    requires d < |Resolve(env, mode, start, md, o).attempts| && Resolve(env, mode, start, md, o).attempts[d].rule.None?
    ensures var run := Resolve(env, mode, start, md, o);
            && d == |run.attempts| - 1 && run.attempts[d].transport == env.fallback
                && run.outcome == Final(run.attempts[d].told.reply)
            && forall i: nat :: start <= i < |env.rules| ==> HadATurn(env, mode, start, run.attempts, i)
    decreases |env.rules| - start
  {
    hide Resolve, Pick, TheAttempt, Decides, OwnAnswer;
    PickDecides(env, mode, start, md, o);
    ResolveUnfolds(env, mode, start, md, o);
    var p := Pick(env, mode, start, md, o);
    var run := Resolve(env, mode, start, md, o);
    var a := TheAttempt(env, p, md);
    AttemptFields(env, p, md);
    if p.rule.None? {
      forall i: nat | start <= i < |env.rules| ensures HadATurn(env, mode, start, run.attempts, i) {
        assert HadItsTurn(env, mode, start, run.attempts, i, 0);
      }
    } else {
      var next := p.rule.value + 1;
      var rest := Resolve(env, mode, next, After(a), o);
      DefaultComesLast(env, mode, next, After(a), o, d - 1);
      forall i: nat | start <= i < |env.rules| ensures HadATurn(env, mode, start, run.attempts, i) {
        if i < next {
          assert HadItsTurn(env, mode, start, run.attempts, i, 0);
        } else {
          assert HadATurn(env, mode, next, rest.attempts, i);
          var j: nat :| j < |rest.attempts| && HadItsTurn(env, mode, next, rest.attempts, i, j);
          assert HadItsTurn(env, mode, start, run.attempts, i, j + 1);
        }
      }
    }
  }

  /** Never more attempts than rules, and one for the default transport. */
  lemma {:induction false} AttemptsAreBounded(env: Env, mode: Mode, start: nat, md: Metadata, o: Options)
    requires start <= |env.rules|
    ensures |Resolve(env, mode, start, md, o).attempts| <= |env.rules| - start + 1
    decreases |env.rules| - start
  {
    hide Resolve, Pick, TheAttempt, OwnAnswer;
    ResolveUnfolds(env, mode, start, md, o);
    var p := Pick(env, mode, start, md, o);
    if OwnAnswer(env, mode, p, md).None? {
      var a := TheAttempt(env, p, md);
      if Limited(env, p.rule) && mode.Retries(a.told.reply) {
        AttemptsAreBounded(env, mode, p.rule.value + 1, After(a), o);
      }
    }
  }

  /**
   What a route-options rule sets is gone once a later rule was rejected: here the first attempt
   bypasses the cache as told and the second, behind it, does not.
   */
  lemma RejectionForgetsSettings() returns (env: Env)
    ensures var o := Options(None, None, false, None, None);
            var run := Resolve(env, Lookup, 0, Metadata("", 0, 0, []), o);
            |run.attempts| == 2 && run.attempts[0].options.disableCache && !run.attempts[1].options.disableCache
  {
    var nothing, uncached := Setting(None, false, None, None), Setting(None, true, None, None);
    var t := Transport("t", false, None);
    env := Env(
      [Rule(false, RouteOptions(uncached)), Rule(true, Route("t", nothing)), Rule(false, Route("t", nothing))],
      map["t" := t], t, None, (i, md) => true,
      (transport, options, rule, md) => Told(if rule == Some(1) then Rejected(false) else Answered([]), None),
      (options, md) => None);
    var o, md := Options(None, None, false, None, None), Metadata("", 0, 0, []);
    assert Pick(env, Lookup, 1, md, Set(o, uncached)) == Picked(Some(t), Some(1), Routed(Set(o, uncached), nothing, t));
    assert Pick(env, Lookup, 0, md, o) == Pick(env, Lookup, 1, md, Set(o, uncached));
    assert Pick(env, Lookup, 2, md, o) == Picked(Some(t), Some(2), Routed(o, nothing, t));
    var a := TheAttempt(env, Pick(env, Lookup, 0, md, o), md);
    var b := TheAttempt(env, Pick(env, Lookup, 2, md, o), md);
    assert Resolve(env, Lookup, 2, md, o) == Run([b], Final(Answered([])));
    assert Resolve(env, Lookup, 0, md, o) == Run([a] + [b], Final(Answered([])));
  }
}
