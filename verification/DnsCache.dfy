/**
 The DNS client's answer cache: how long an answer may be kept, what is stored, and how a
 stored answer is aged when it is loaded. The cache holds a reference to the very message
 the client goes on to work on, so what happens to it after it was stored matters.
 */
module DnsCache {
  import opened Integers
  import opened Wrappers

  const TWO_32: int := 0x1_0000_0000
  /** Nanoseconds. */
  type Time = int

  const SECOND: int := 1_000_000_000
  const OPT: nat := 41
  const SUCCESS: nat := 0
  const NAME_ERROR: nat := 3
  /** The DO bit of an OPT record, which like its version is kept in the TTL field. */
  const DO_BIT: u32 := 0x8000

  /** `minimum` is present in SOA records, `options` counts the EDNS options of OPT records. */
  datatype Record = Record(rrtype: nat, rrclass: nat, ttl: u32, minimum: Option<u32>, options: nat, data: seq<nat>)

  datatype Sections = Sections(answer: seq<Record>, ns: seq<Record>, extra: seq<Record>)

  datatype Request = Request(id: nat, questions: nat, ns: nat, extra: seq<Record>, clientSubnet: bool)

  function All(s: Sections): seq<Record> {
    s.answer + s.ns + s.extra
  }

  // ----- how long an answer may be kept -----

  /** The least positive TTL, 0 when there is none. */
  predicate IsLeastTtl(t: u32, records: seq<Record>) {
    if t == 0 then forall r :: r in records ==> r.ttl == 0
    else (exists r :: r in records && r.ttl == t) && forall r :: r in records && r.ttl > 0 ==> t <= r.ttl
  }

  function LeastTtl(records: seq<Record>): (t: u32)
    ensures IsLeastTtl(t, records)
  {
    if records == [] then 0
    else
      var t := LeastTtl(records[..|records| - 1]);
      var last := records[|records| - 1];
      assert records == records[..|records| - 1] + [last];
      if t == 0 || (last.ttl > 0 && last.ttl < t) then last.ttl else t
  }

  lemma LeastTtlIsUnique(t: u32, records: seq<Record>)
    requires IsLeastTtl(t, records)
    ensures t == LeastTtl(records)
  {
    var u := LeastTtl(records);
    if t > 0 && u > 0 {
      var r :| r in records && r.ttl == t;
      var q :| q in records && q.ttl == u;
    }
  }

  /** What the first SOA record allows an answer without records to be kept for. */
  function NegativeTtl(ns: seq<Record>): Option<u32> {
    if ns == [] then None
    else if ns[0].minimum.Some? then Some(if ns[0].ttl < ns[0].minimum.value then ns[0].ttl else ns[0].minimum.value)
    else NegativeTtl(ns[1..])
  }

  /** The time an answer is kept for. */
  function Lifetime(s: Sections, rewrite: Option<u32>): u32 {
    if rewrite.Some? then rewrite.value
    else if s.answer == [] && NegativeTtl(s.ns).Some? && NegativeTtl(s.ns).value > 0 then NegativeTtl(s.ns).value
    else LeastTtl(All(s))
  }

  /**
   Section 5 of RFC 2308 gives an answer without records the lesser of the SOA's TTL and its
   minimum. That is what the client takes, except that a lesser of zero, which forbids caching,
   is passed over in favour of the least positive TTL of any record.
   */
  lemma NegativeAnswers(s: Sections, k: nat)
    requires s.answer == [] && k < |s.ns| && s.ns[k].minimum.Some?
    requires forall j :: 0 <= j < k ==> s.ns[j].minimum.None?
    ensures var allowed := if s.ns[k].ttl < s.ns[k].minimum.value then s.ns[k].ttl else s.ns[k].minimum.value;
            Lifetime(s, None) == allowed <==> (allowed > 0 || forall r :: r in All(s) ==> r.ttl == 0)
  {
    FirstSoa(s.ns, k);
    assert IsLeastTtl(LeastTtl(All(s)), All(s));
  }

  lemma {:induction false} FirstSoa(ns: seq<Record>, k: nat)
    requires k < |ns| && ns[k].minimum.Some? && forall j :: 0 <= j < k ==> ns[j].minimum.None?
    ensures NegativeTtl(ns) == Some(if ns[k].ttl < ns[k].minimum.value then ns[k].ttl else ns[k].minimum.value)
  {
    if k > 0 {
      FirstSoa(ns[1..], k - 1);
    }
  }

  method ExtractNegativeTtl(ns: seq<Record>) returns (ttl: u32, hasSoa: bool)
    ensures hasSoa <==> NegativeTtl(ns).Some?
    ensures hasSoa ==> ttl == NegativeTtl(ns).value
  {
    for i := 0 to |ns|
      invariant NegativeTtl(ns) == NegativeTtl(ns[i..])
    {
      assert ns[i..][1..] == ns[i + 1..];
      if ns[i].minimum.Some? {
        var minimum := ns[i].minimum.value;
        if ns[i].ttl < minimum {
          return ns[i].ttl, true;
        }
        return minimum, true;
      }
    }
    return 0, false;
  }

  /** One list of the TTL loop: `least` is the answer for the lists before it. */
  method LeastOf(least: u32, ghost before: seq<Record>, records: seq<Record>) returns (t: u32)
    requires least == LeastTtl(before)
    ensures t == LeastTtl(before + records)
  {
    hide LeastTtl;
    t := least;
    assert before + records[..0] == before;
    for i := 0 to |records|
      invariant t == LeastTtl(before + records[..i])
    {
      assert before + records[..i + 1] == before + records[..i] + [records[i]];
      if t == 0 || (records[i].ttl > 0 && records[i].ttl < t) {
        t := records[i].ttl;
      }
    }
    assert records[..|records|] == records;
  }

  method LeastOfAll(s: Sections) returns (t: u32)
    ensures t == LeastTtl(All(s))
  {
    t := LeastOf(0, [], s.answer);
    assert [] + s.answer == s.answer;
    t := LeastOf(t, s.answer, s.ns);
    t := LeastOf(t, s.answer + s.ns, s.extra);
  }

  method TimeToLive(s: Sections, rewrite: Option<u32>) returns (t: u32)
    ensures t == Lifetime(s, rewrite)
  {
    t := 0;
    if |s.answer| == 0 {
      var soaTtl, hasSoa := ExtractNegativeTtl(s.ns);
      if hasSoa {
        t := soaTtl;
      }
    }
    if t == 0 {
      t := LeastOfAll(s);
    }
    if rewrite.Some? {
      t := rewrite.value;
    }
  }

  // ----- what is stored -----

  function Stamp(records: seq<Record>, t: u32): (stamped: seq<Record>)
    ensures |stamped| == |records|
    ensures forall i :: 0 <= i < |records| ==> stamped[i] == records[i].(ttl := t)
  {
    seq(|records|, i requires 0 <= i < |records| => records[i].(ttl := t))
  }

  function StampAll(s: Sections, t: u32): Sections {
    Sections(Stamp(s.answer, t), Stamp(s.ns, t), Stamp(s.extra, t))
  }

  /** The OPT record of a list of additional records: the last one. */
  function Edns(extra: seq<Record>): Option<Record> {
    if extra == [] then None
    else if extra[|extra| - 1].rrtype == OPT then Some(extra[|extra| - 1])
    else Edns(extra[..|extra| - 1])
  }

  function Version(opt: Record): nat {
    opt.ttl / 0x1_0000 % 0x100
  }

  function Do(opt: Record): bool {
    opt.ttl / 0x8000 % 2 == 1
  }

  function Plain(records: seq<Record>): seq<Record> {
    if records == [] then []
    else Plain(records[..|records| - 1]) + if records[|records| - 1].rrtype == OPT then [] else [records[|records| - 1]]
  }

  /** A fresh OPT record carries nothing in its TTL but the DO bit. */
  function NewOpt(udpSize: nat, do: bool): Record {
    Record(OPT, udpSize, if do then DO_BIT else 0, None, 0, [])
  }

  /** The response is brought down to what the requester understands. */
  function Downgrade(s: Sections, request: Option<Record>): Sections {
    var response := Edns(s.extra);
    if response.None? || (request.Some? && Version(request.value) >= Version(response.value)) then s
    else
      s.(extra := Plain(s.extra) + if request.Some? then [NewOpt(response.value.rrclass, Do(response.value))] else [])
  }

  /** What ends up behind the cached reference: the TTLs are stamped first, then the OPT record is read. */
  function Kept(s: Sections, t: u32, request: Option<Record>): Sections {
    Downgrade(StampAll(s, t), request)
  }

  // ----- what is loaded -----

  function Minus(a: u32, b: u32): u32 {
    (a - b) % TWO_32
  }

  /** Aging by what the least TTL has lost; with no positive TTL every record gets the remaining seconds. */
  function Age(records: seq<Record>, origin: u32, left: nat): (aged: seq<Record>)
    ensures |aged| == |records|
    ensures forall i :: 0 <= i < |records| ==>
      aged[i] == records[i].(ttl := if origin > 0 then Minus(records[i].ttl, (origin - left) % TWO_32)
          else left % TWO_32)
  {
    seq(|records|, i requires 0 <= i < |records| =>
      records[i].(ttl := if origin > 0 then Minus(records[i].ttl, (origin - left) % TWO_32) else left % TWO_32))
  }

  function AgeAll(s: Sections, left: nat): Sections {
    var origin := LeastTtl(All(s));
    Sections(Age(s.answer, origin, left), Age(s.ns, origin, left), Age(s.extra, origin, left))
  }

  predicate AllTtls(s: Sections, t: int) {
    forall r :: r in All(s) ==> r.ttl == t
  }

  // ----- record by record -----

  /** The same records in the same places, but for their TTLs. */
  ghost predicate UpToTtl(a: seq<Record>, b: seq<Record>) {
    |a| == |b| && forall i :: 0 <= i < |a| ==> a[i] == b[i].(ttl := a[i].ttl)
  }

  ghost predicate SameRecords(a: Sections, b: Sections) {
    UpToTtl(a.answer, b.answer) && UpToTtl(a.ns, b.ns) && UpToTtl(a.extra, b.extra)
  }

  /** Aging moves nothing, and every record that can lose what the least TTL has lost loses exactly that. */
  lemma AgedInPlace(s: Sections, left: nat)
    ensures SameRecords(AgeAll(s, left), s)
    ensures var origin, aged := LeastTtl(All(s)), AgeAll(s, left);
            left <= origin && origin > 0 ==>
              && Lose(s.answer, aged.answer, origin - left)
              && Lose(s.ns, aged.ns, origin - left)
              && Lose(s.extra, aged.extra, origin - left)
  {
    var origin := LeastTtl(All(s));
    AgedListInPlace(s.answer, origin, left);
    AgedListInPlace(s.ns, origin, left);
    AgedListInPlace(s.extra, origin, left);
    hide LeastTtl, UpToTtl, Lose, Age;
  }

  lemma AgedListInPlace(records: seq<Record>, origin: u32, left: nat)
    ensures UpToTtl(Age(records, origin, left), records)
    ensures left <= origin && origin > 0 ==> Lose(records, Age(records, origin, left), origin - left)
  {
  }

  ghost predicate Lose(before: seq<Record>, after: seq<Record>, lost: nat) {
    |before| == |after|
    && forall i :: 0 <= i < |before| && before[i].ttl >= lost ==> after[i].ttl == before[i].ttl - lost
  }

  /** `k` is the place of the last OPT record. */
  predicate LastOpt(extra: seq<Record>, k: nat) {
    k < |extra| && extra[k].rrtype == 41 && forall j :: k < j < |extra| ==> extra[j].rrtype != 41
  }

  lemma {:induction false} EdnsIsLast(extra: seq<Record>)
    ensures Edns(extra).None? <==> forall r :: r in extra ==> r.rrtype != 41
    ensures forall k: nat :: LastOpt(extra, k) ==> Edns(extra) == Some(extra[k])
  {
    if extra != [] {
      var rest, last := extra[..|extra| - 1], extra[|extra| - 1];
      EdnsIsLast(rest);
      assert extra == rest + [last];
      forall k: nat | LastOpt(extra, k) ensures Edns(extra) == Some(extra[k]) {
        assert last.rrtype != 41 ==> LastOpt(rest, k);
      }
    }
  }

  /** What is plain of two lists is plain of each, in order: every record but the OPT records. */
  lemma {:induction false} PlainRecords(a: seq<Record>, b: seq<Record>, r: Record)
    ensures Plain(a + b) == Plain(a) + Plain(b)
    ensures Plain([r]) == if r.rrtype == 41 then [] else [r]
    decreases b
  {
    assert [r][..0] == [];
    if b == [] {
      assert a + b == a;
    } else {
      var init := b[..|b| - 1];
      assert (a + b)[..|a + b| - 1] == a + init;
      PlainRecords(a, init, r);
    }
  }

  /** The requester knows no EDNS, or an older version than the stamped TTL of the response's OPT record reads as. */
  predicate BroughtDown(s: Sections, t: u32, request: Option<Record>) {
    && (exists r :: r in s.extra && r.rrtype == 41)
    && (request.Some? ==> request.value.ttl / 0x1_0000 % 0x100 < t / 0x1_0000 % 0x100)
  }

  /**
   The answer and authority sections stay, and so does the additional section unless the response
   is brought down: then its OPT records go, and the requester's EDNS is answered by one with the UDP
   size of the last of them and, of the stamped TTL, the DO bit.
   */
  ghost predicate KeptRecords(kept: Sections, s: Sections, t: u32, request: Option<Record>) {
    && UpToTtl(kept.answer, s.answer) && UpToTtl(kept.ns, s.ns)
    && (!BroughtDown(s, t, request) ==> UpToTtl(kept.extra, s.extra))
    && (BroughtDown(s, t, request) ==>
          var n := |Plain(s.extra)|;
          && n <= |kept.extra| && UpToTtl(kept.extra[..n], Plain(s.extra))
          && (request.None? ==> |kept.extra| == n)
          && (request.Some? ==> forall k: nat :: LastOpt(s.extra, k) ==>
                kept.extra[n..]
                == [Record(41, s.extra[k].rrclass, if t / 0x8000 % 2 == 1 then 0x8000 else 0, None, 0, [])]))
  }

  lemma KeptInPlace(s: Sections, t: u32, request: Option<Record>)
    ensures KeptRecords(Kept(s, t, request), s, t, request)
  {
    EdnsIsLast(s.extra);
    EdnsOfStamped(s.extra, t);
    PlainOfStamped(s.extra, t);
    hide Edns, Plain;
    var kept, n := Kept(s, t, request), |Plain(s.extra)|;
    if BroughtDown(s, t, request) {
      assert kept.extra[..n] == Stamp(Plain(s.extra), t);
    }
  }

  /** Without a rewritten TTL an answer with records is kept for its least positive TTL. */
  lemma Lifetimes(s: Sections, rewrite: Option<u32>)
    ensures rewrite.Some? ==> Lifetime(s, rewrite) == rewrite.value
    ensures rewrite.None? && (s.answer != [] || forall r :: r in s.ns ==> r.minimum.None?) ==>
              IsLeastTtl(Lifetime(s, rewrite), All(s))
  {
    NoSoa(s.ns);
    hide LeastTtl;
  }

  lemma {:induction false} NoSoa(ns: seq<Record>)
    ensures (forall r :: r in ns ==> r.minimum.None?) ==> NegativeTtl(ns).None?
  {
    if ns != [] {
      NoSoa(ns[1..]);
    }
  }

  // ----- the clock model -----

  /** Modulo 2^32 nothing but the least TTL itself ages to what is left. */
  lemma AgedTo(ttl: u32, origin: u32, left: u32)
    ensures Minus(ttl, (origin - left) % TWO_32) == left <==> ttl == origin
  {
    var d := (origin - left) % TWO_32;
    assert d == origin - left || d == origin - left + TWO_32;
  }

  lemma AgeParts(s: Sections, left: u32)
    ensures All(AgeAll(s, left)) == Age(All(s), LeastTtl(All(s)), left)
  {
    hide LeastTtl;
  }

  lemma AgedRecords(records: seq<Record>, origin: u32, left: u32)
    requires origin > 0 || forall r :: r in records ==> r.ttl == 0
    ensures (forall r :: r in Age(records, origin, left) ==> r.ttl == left) <==>
        forall r :: r in records ==> r.ttl == origin
  {
    var aged := Age(records, origin, left);
    forall i | 0 <= i < |records| ensures aged[i].ttl == left <==> records[i].ttl == origin {
      AgedTo(records[i].ttl, origin, left);
    }
    if forall r :: r in aged ==> r.ttl == left {
      forall r | r in records ensures r.ttl == origin {
        var i :| 0 <= i < |records| && records[i] == r;
        assert aged[i] in aged;
      }
    }
  }

  /** An aged message carries the remaining time throughout exactly when its TTLs were all the same. */
  lemma AgedUniformly(s: Sections, left: u32)
    ensures AllTtls(AgeAll(s, left), left) <==> AllTtls(s, LeastTtl(All(s)))
  {
    hide AgeAll, LeastTtl;
    AgeParts(s, left);
    assert IsLeastTtl(LeastTtl(All(s)), All(s));
    AgedRecords(All(s), LeastTtl(All(s)), left);
  }

  lemma UniformTtls(s: Sections, t: u32)
    requires AllTtls(s, t)
    ensures AllTtls(s, LeastTtl(All(s)))
  {
    hide LeastTtl;
    assert IsLeastTtl(LeastTtl(All(s)), All(s));
  }

  lemma MixedTtls(s: Sections, a: Record, b: Record)
    requires a in All(s) && b in All(s) && a.ttl != b.ttl
    ensures !AllTtls(s, LeastTtl(All(s)))
  {
  }

  /** The response had an OPT record, the request has one, and the stamped TTL reads as a newer EDNS version. */
  predicate Reissued(s: Sections, t: u32, request: Option<Record>) {
    Edns(s.extra).Some? && request.Some? && Version(request.value) < t / 0x1_0000 % 0x100
  }

  /** There is a record besides the additional section's OPT records. */
  predicate HasOthers(s: Sections) {
    s.answer != [] || s.ns != [] || Plain(s.extra) != []
  }

  lemma {:induction false} PlainOfStamped(records: seq<Record>, t: u32)
    ensures Plain(Stamp(records, t)) == Stamp(Plain(records), t)
  {
    if records != [] {
      assert Stamp(records, t)[..|records| - 1] == Stamp(records[..|records| - 1], t);
      PlainOfStamped(records[..|records| - 1], t);
    }
  }

  lemma {:induction false} EdnsOfStamped(extra: seq<Record>, t: u32)
    ensures Edns(extra).Some? <==> Edns(Stamp(extra, t)).Some?
    ensures Edns(extra).Some? ==> Edns(Stamp(extra, t)).value == Edns(extra).value.(ttl := t)
  {
    if extra != [] {
      assert Stamp(extra, t)[..|extra| - 1] == Stamp(extra[..|extra| - 1], t);
      EdnsOfStamped(extra[..|extra| - 1], t);
    }
  }

  /** What is kept: everything carries the stamped TTL, but for an OPT record issued anew. */
  lemma KeptAtoms(s: Sections, t: u32, request: Option<Record>)
    requires t > 0
    ensures var kept := Kept(s, t, request);
            && (!Reissued(s, t, request) ==> AllTtls(kept, t))
            && (Reissued(s, t, request) ==>
                  && (exists o :: o in All(kept) && o.ttl == if t / 0x8000 % 2 == 1 then DO_BIT else 0)
                  && (HasOthers(s) ==> exists r :: r in All(kept) && r.ttl == t)
                  && (!HasOthers(s) ==> |All(kept)| == 1))
  {
    EdnsOfStamped(s.extra, t);
    PlainOfStamped(s.extra, t);
    var kept := Kept(s, t, request);
    if Reissued(s, t, request) {
      var o := kept.extra[|kept.extra| - 1];
      assert kept.extra == Stamp(Plain(s.extra), t) + [o];
      assert All(kept)[|All(kept)| - 1] == o;
      if HasOthers(s) {
        assert All(kept)[0].ttl == t;
      }
    }
  }

  /**
   At any moment, what a load returns carries the remaining seconds in every record exactly
   when the stored message is not one whose OPT record was issued anew beside other records.
   */
  lemma LoadAgreesWithClock(s: Sections, t: u32, request: Option<Record>, left: u32)
    requires 0 < t && left <= t
    ensures AllTtls(AgeAll(Kept(s, t, request), left), left) <==> !(Reissued(s, t, request) && HasOthers(s))
  {
    hide Kept, Reissued, HasOthers, AgeAll, LeastTtl, AllTtls;
    var kept := Kept(s, t, request);
    KeptAtoms(s, t, request);
    AgedUniformly(kept, left);
    if !Reissued(s, t, request) {
      UniformTtls(kept, t);
    } else if !HasOthers(s) {
      OneRecord(kept);
    } else {
      ReissuedDiffers(s, t, request);
      var o :| o in All(kept) && o.ttl == if t / 0x8000 % 2 == 1 then DO_BIT else 0;
      var r :| r in All(kept) && r.ttl == t;
      MixedTtls(kept, o, r);
    }
  }

  lemma OneRecord(s: Sections)
    requires |All(s)| == 1
    ensures AllTtls(s, LeastTtl(All(s)))
  {
    assert forall r :: r in All(s) ==> r == All(s)[0];
    UniformTtls(s, All(s)[0].ttl);
  }

  /** A TTL that reads as a newer version has bit 16 or above set, so it is neither value of a fresh OPT record. */
  lemma ReissuedDiffers(s: Sections, t: u32, request: Option<Record>)
    requires Reissued(s, t, request)
    ensures t != 0 && t != DO_BIT
  {
  }

  /** While the answer agrees with the clock nothing is ever subtracted below zero and no TTL exceeds the lifetime. */
  lemma NoUnderflow(s: Sections, t: u32, request: Option<Record>, left: u32)
    requires 0 < t && left <= t && !Reissued(s, t, request)
    ensures var all := All(Kept(s, t, request));
            && (all != [] ==> LeastTtl(all) == t)
            && forall r :: r in all ==> r.ttl - (t - left) == left <= t
  {
    hide Kept, Reissued, LeastTtl;
    KeptAtoms(s, t, request);
    var all := All(Kept(s, t, request));
    if all != [] {
      assert all[0].ttl == t;
      LeastTtlIsUnique(t, all);
    }
  }

  lemma SoleOpt(o: Record)
    requires o.rrtype == OPT
    ensures Edns([o]) == Some(o) && Plain([o]) == []
  {
    assert [o][..0] == [];
  }

  /**
   An answer kept for 100000 seconds reads as EDNS version 1 with the DO bit set, so for an
   EDNS request its OPT record is issued anew; loaded at once it claims more than its lifetime.
   */
  lemma LongAnswerGrows() returns (s: Sections, request: Option<Record>)
    ensures Lifetime(s, None) == 100000
    ensures exists r :: r in All(AgeAll(Kept(s, 100000, request), 100000)) && r.ttl == 167232
  {
    hide LeastTtl;
    var a, opt := Record(1, 1, 100000, None, 0, []), Record(OPT, 1232, 0, None, 0, []);
    s, request := Sections([a], [], [opt]), Some(opt);
    assert All(s) == [a, opt];
    assert IsLeastTtl(100000, All(s)) by {
      assert a in All(s);
    }
    LeastTtlIsUnique(100000, All(s));
    var reissued := NewOpt(1232, true);
    var kept := Kept(s, 100000, request);
    assert StampAll(s, 100000).extra == [opt.(ttl := 100000)];
    SoleOpt(opt.(ttl := 100000));
    assert kept == Sections([a], [], [reissued]);
    assert All(kept) == [a, reissued];
    assert IsLeastTtl(DO_BIT, All(kept)) by {
      assert reissued in All(kept);
    }
    LeastTtlIsUnique(DO_BIT, All(kept));
    assert AgeAll(kept, 100000).answer == [a.(ttl := 167232)];
    assert a.(ttl := 167232) in All(AgeAll(kept, 100000));
  }

  // ----- the client -----

  predicate IsSimple(r: Request) {
    && r.questions == 1 && r.ns == 0 && !r.clientSubnet
    && (r.extra == []
        || (|r.extra| == 1 && r.extra[0].rrtype == OPT && r.extra[0].rrclass > 0 && r.extra[0].ttl == 0
            && r.extra[0].options == 0))
  }

  /** The cache is asked about requests of one question alone, or with an OPT record that has nothing in it. */
  lemma SimpleRequests(r: Request)
    ensures IsSimple(r) <==>
              && r.questions == 1 && r.ns == 0 && !r.clientSubnet && |r.extra| <= 1
              && forall opt :: opt in r.extra ==>
                   opt.rrtype == 41 && opt.rrclass > 0 && opt.ttl == 0 && opt.options == 0
  {
    if |r.extra| == 1 {
      assert forall opt :: opt in r.extra <==> opt == r.extra[0];
    }
  }

  /** For a request the cache serves, the OPT record is issued anew when the lifetime has any of bits 16 to 23 set. */
  lemma ReissuedForSimple(s: Sections, t: u32, r: Request)
    requires IsSimple(r)
    ensures Reissued(s, t, Edns(r.extra)) <==> Edns(s.extra).Some? && r.extra != [] && t / 0x1_0000 % 0x100 != 0
  {
    if r.extra != [] {
      assert Edns(r.extra) == Some(r.extra[0]);
    }
  }

  /** A message, passed around by reference. */
  class Response {
    var id: nat
    var rcode: nat
    var sections: Sections

    constructor (id: nat, rcode: nat, sections: Sections)
      ensures this.id == id && this.rcode == rcode && this.sections == sections
    {
      this.id, this.rcode, this.sections := id, rcode, sections;
    }
  }

  /** The transport's tag is part of the key when every transport has a cache of its own. */
  datatype Key = Key(question: nat, tag: Option<string>)

  /** Entries do not expire when expiry is disabled. */
  datatype Entry = Entry(message: Response, expireAt: Option<Time>)

  /** Where a cached message came from: what the transport answered, to which request, when, and its lifetime. */
  datatype Origin = Origin(sections: Sections, request: Option<Record>, lifetime: u32, storedAt: Time)

  class Client {
    const disableCache: bool
    const disableExpire: bool
    var cache: map<Key, Entry>
    ghost var origins: map<Key, Origin>

    ghost predicate Valid()
      reads this, set k | k in cache :: cache[k].message
    {
      && origins.Keys == cache.Keys
      && forall k :: k in cache ==> KeptSince(origins[k], cache[k].message.sections, cache[k].expireAt)
    }

    /** A cached message and its expiry are what became of the transport's answer. */
    predicate KeptSince(o: Origin, sections: Sections, expireAt: Option<Time>) {
      && o.lifetime > 0
      && sections == Kept(o.sections, o.lifetime, o.request)
      && expireAt == if disableExpire then None else Some(o.storedAt + o.lifetime * SECOND)
    }

    constructor (disableCache: bool, disableExpire: bool)
      ensures Valid() && cache == map[] && this.disableCache == disableCache && this.disableExpire == disableExpire
    {
      this.disableCache, this.disableExpire := disableCache, disableExpire;
      cache, origins := map[], map[];
    }

    /** A request the cache is asked about. */
    predicate Consults(request: Request, noCache: bool) {
      IsSimple(request) && !disableCache && !noCache
    }

    /** An entry that is still there to be served: nothing expires when expiry is disabled. */
    ghost predicate Fresh(key: Key, now: Time)
      reads this
      requires key in cache ==> key in origins
    {
      key in cache && (disableExpire || now <= origins[key].storedAt + origins[key].lifetime * SECOND)
    }

    /** The whole seconds a fresh entry has left. */
    ghost function Left(key: Key, now: Time): nat
      reads this
      requires (key in cache ==> key in origins) && Fresh(key, now)
    {
      if disableExpire then 0 else (origins[key].storedAt + origins[key].lifetime * SECOND - now) / SECOND
    }

    /** An answer is kept if the request is one the cache is asked about, it is an answer, and it may be kept. */
    predicate Stores(request: Request, noCache: bool, t: u32, rcode: nat) {
      Consults(request, noCache) && (rcode == SUCCESS || rcode == NAME_ERROR) && t > 0
    }

    /**
     The cache after a miss: without the expired entry, if the cache was asked, and with the answer, if it is
     kept.
     */
    function AfterMiss(
      before: map<Key, Entry>, request: Request, key: Key, noCache: bool, t: u32, message: Response, rcode: nat,
          now: Time)
      : map<Key, Entry>
    {
      var rest := if Consults(request, noCache) then before - {key} else before;
      if Stores(request, noCache, t, rcode)
      then rest[key := Entry(message, if disableExpire then None else Some(now + t * SECOND))]
      else rest
    }

    /**
     A load hands out a copy whose records all carry the whole seconds the clock says are left,
     unless the OPT record of the stored message was issued anew; an expired entry is removed,
     and no cached message is ever written to.
     */
    method Load(key: Key, now: Time) returns (copy: Response?, left: nat)
      requires Valid()
      modifies `cache, `origins
      ensures Valid()
      ensures copy != null <==> old(Fresh(key, now))
      ensures copy == null ==> cache == old(cache) - {key} && origins == old(origins) - {key}
      ensures copy != null ==>
        && fresh(copy) && cache == old(cache) && origins == old(origins)
        && left == old(Left(key, now)) && copy.rcode == old(cache[key].message.rcode)
        && copy.sections == (if disableExpire then old(cache[key].message.sections)
                             else AgeAll(old(cache[key].message.sections), left))
        && SameRecords(copy.sections, old(cache[key].message.sections))
      ensures copy != null && !disableExpire && now >= old(origins[key]).storedAt ==>
        var o := old(origins[key]);
        && left <= o.lifetime
        && (AllTtls(copy.sections, left) <==> !(Reissued(o.sections, o.lifetime, o.request) && HasOthers(o.sections)))
    {
      hide AgeAll, Kept, Reissued, HasOthers, AllTtls, LeastTtl;
      if key !in cache {
        assert cache - {key} == cache && origins - {key} == origins;
        return null, 0;
      }
      var entry := cache[key];
      if disableExpire {
        copy := new Response(entry.message.id, entry.message.rcode, entry.message.sections);
        return copy, 0;
      }
      ghost var o := origins[key];
      var expiry := entry.expireAt.value;
      if now > expiry {
        cache, origins := cache - {key}, origins - {key};
        return null, 0;
      }
      left := (expiry - now) / SECOND;
      AgedInPlace(entry.message.sections, left);
      var aged := Aged(entry.message.sections, left);
      copy := new Response(entry.message.id, entry.message.rcode, aged);
      if now >= o.storedAt {
        LoadAgreesWithClock(o.sections, o.lifetime, o.request, left);
      }
    }

    /** The rest of an exchange, once the transport has answered: stamp, store, then bring the response down. */
    method Finish(request: Request, key: Key, rewrite: Option<u32>, cacheable: bool, response: Response, now: Time)
      requires Valid() && forall k :: k in cache ==> cache[k].message != response
      modifies `cache, `origins, response
      ensures Valid()
      ensures var t := Lifetime(old(response.sections), rewrite);
              && response.id == request.id && response.rcode == old(response.rcode)
              && response.sections == Kept(old(response.sections), t, Edns(request.extra))
              && KeptRecords(response.sections, old(response.sections), t, Edns(request.extra))
              && (if cacheable && (response.rcode == SUCCESS || response.rcode == NAME_ERROR) && t > 0 then
                    && cache == old(cache)[
                         key := Entry(response, if disableExpire then None else Some(now + t * SECOND))]
                    && origins == old(origins)[key := Origin(old(response.sections), Edns(request.extra), t, now)]
                  else cache == old(cache) && origins == old(origins))
    {
      hide Lifetime, StampAll, Edns, Downgrade, LeastTtl;
      ghost var answered := response.sections;
      var keep := cacheable && (response.rcode == SUCCESS || response.rcode == NAME_ERROR);
      var t := TimeToLive(response.sections, rewrite);
      KeptInPlace(answered, t, Edns(request.extra));
      hide KeptRecords;
      response.sections := StampAll(response.sections, t);
      if keep {
        StoreCache(key, response, t, now, Origin(answered, Edns(request.extra), t, now));
      }
      assert keep && t > 0 ==> origins[key] == Origin(answered, Edns(request.extra), t, now);
      response.id := request.id;
      BringDown(request, response);
      assert ValidBut(response);
      forall k | k in cache && cache[k].message == response
        ensures KeptSince(origins[k], response.sections, cache[k].expireAt)
      {
        assert k == key && keep && t > 0;
      }
      hide KeptSince;
    }

    /** Valid but for what `message` holds at present. */
    ghost predicate ValidBut(message: Response)
      reads this, set k | k in cache :: cache[k].message
    {
      && origins.Keys == cache.Keys
      && forall k :: k in cache && cache[k].message != message ==>
          KeptSince(origins[k], cache[k].message.sections, cache[k].expireAt)
    }

    /** The message is kept by reference, for `t` seconds; not at all when that is none. */
    method StoreCache(key: Key, message: Response, t: u32, now: Time, ghost o: Origin)
      requires ValidBut(message)
      modifies `cache, `origins
      ensures ValidBut(message)
      ensures t == 0 ==> cache == old(cache) && origins == old(origins)
      ensures t > 0 ==>
        && cache == old(cache)[key := Entry(message, if disableExpire then None else Some(now + t * SECOND))]
        && origins == old(origins)[key := o]
    {
      hide KeptSince;
      if t == 0 {
        return;
      }
      cache := cache[key := Entry(message, if disableExpire then None else Some(now + t * SECOND))];
      origins := origins[key := o];
    }

    method BringDown(request: Request, response: Response)
      modifies response`sections
      ensures response.sections == Downgrade(old(response.sections), Edns(request.extra))
    {
      hide Edns, Plain, Version, Do;
      var requestOpt, responseOpt := Edns(request.extra), Edns(response.sections.extra);
      if responseOpt.Some? && (requestOpt.None? || Version(requestOpt.value) < Version(responseOpt.value)) {
        var extra := Plain(response.sections.extra);
        if requestOpt.Some? {
          extra := extra + [NewOpt(responseOpt.value.rrclass, Do(responseOpt.value))];
        } else {
          assert extra + [] == extra;
        }
        response.sections := response.sections.(extra := extra);
      }
    }

    /** An exchange as far as the cache goes: answered from the cache, or by what the transport answers. */
    method Exchange(request: Request, key: Key, rewrite: Option<u32>, noCache: bool, response: Response, asked: Time,
        answered: Time)
      returns (result: Response, hit: bool)
      requires Valid() && forall k :: k in cache ==> cache[k].message != response
      modifies `cache, `origins, response
      ensures Valid() && result.id == request.id
      ensures hit <==> Consults(request, noCache) && old(Fresh(key, asked))
      ensures hit ==>
        && unchanged(response) && fresh(result) && cache == old(cache) && origins == old(origins)
        && result.rcode == old(cache[key].message.rcode)
        && result.sections == (if disableExpire then old(cache[key].message.sections)
                               else AgeAll(old(cache[key].message.sections), old(Left(key, asked))))
        && SameRecords(result.sections, old(cache[key].message.sections))
      ensures hit && !disableExpire && asked >= old(origins[key]).storedAt ==>
        var o := old(origins[key]);
        && old(Left(key, asked)) <= o.lifetime
        && (AllTtls(result.sections, old(Left(key, asked))) <==>
              !(Reissued(o.sections, o.lifetime, o.request) && HasOthers(o.sections)))
      ensures !hit ==>
        var t := Lifetime(old(response.sections), rewrite);
        && result == response && response.rcode == old(response.rcode)
        && response.sections == Kept(old(response.sections), t, Edns(request.extra))
        && KeptRecords(response.sections, old(response.sections), t, Edns(request.extra))
        && cache == AfterMiss(old(cache), request, key, noCache, t, response, response.rcode, answered)
        && (Stores(request, noCache, t, response.rcode) ==>
              origins[key] == Origin(old(response.sections), Edns(request.extra), t, answered))
        && (key in cache && cache[key].message == response <==>
              IsSimple(request) && !disableCache && !noCache && response.rcode in [0, 3] && t > 0)
        && (key in cache && cache[key].message == response ==>
              cache[key].expireAt == if disableExpire then None else Some(answered + t * 1_000_000_000))
    {
      hide AgeAll, Kept, Reissued, HasOthers, AllTtls, Lifetime, SameRecords, KeptRecords;
      var cacheable := IsSimple(request) && !disableCache && !noCache;
      if cacheable {
        var copy, left := Load(key, asked);
        if copy != null {
          copy.id := request.id;
          return copy, true;
        }
      }
      Finish(request, key, rewrite, cacheable, response, answered);
      return response, false;
    }
  }

  /** Aging a copy record by record. */
  method Aged(s: Sections, left: nat) returns (aged: Sections)
    ensures aged == AgeAll(s, left)
  {
    var origin := LeastOfAll(s);
    var answer := AgedList(s.answer, origin, left);
    var ns := AgedList(s.ns, origin, left);
    var extra := AgedList(s.extra, origin, left);
    aged := Sections(answer, ns, extra);
  }

  method AgedList(records: seq<Record>, origin: u32, left: nat) returns (aged: seq<Record>)
    ensures aged == Age(records, origin, left)
  {
    aged := records;
    for i := 0 to |records|
      invariant |aged| == |records|
      invariant forall j :: 0 <= j < i ==> aged[j] == Age(records, origin, left)[j]
      invariant forall j :: i <= j < |records| ==> aged[j] == records[j]
    {
      if origin > 0 {
        var duration := (origin - left) % TWO_32;
        aged := aged[i := aged[i].(ttl := Minus(aged[i].ttl, duration))];
      } else {
        aged := aged[i := aged[i].(ttl := left % TWO_32)];
      }
    }
  }

  /**
   What the lock around an exchange is for: once an answer that may be kept was stored, whoever
   asks the same before it expires is served from the cache, and the transport is left alone.
   */
  method AskTwice(
    client: Client, first: Request, second: Request, key: Key, rewrite: Option<u32>, answer: Response, unused: Response,
    asked: Time, answered: Time, again: Time)
    returns (result: Response, hit: bool)
    requires client.Valid() && forall k :: k in client.cache ==> client.cache[k].message != answer
    requires unused != answer && forall k :: k in client.cache ==> client.cache[k].message != unused
    requires client.Stores(first, false, Lifetime(answer.sections, rewrite), answer.rcode) && IsSimple(second)
    requires again <= answered + Lifetime(answer.sections, rewrite) * SECOND
    requires client.Fresh(key, asked) ==> again <= client.origins[key].storedAt + client.origins[key].lifetime * SECOND
    modifies client`cache, client`origins, answer, unused
    ensures hit && unused.sections == old(unused.sections)
  {
    hide Lifetime, Kept, AgeAll, Edns, Reissued, HasOthers, AllTtls, IsSimple;
    result, hit := client.Exchange(first, key, rewrite, false, answer, asked, answered);
    assert client.Fresh(key, again);
    result, hit := client.Exchange(second, key, rewrite, false, unused, again, again);
  }
}
