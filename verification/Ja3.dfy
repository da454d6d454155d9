/**
 The ClientHello parser behind the JA3 fingerprint: one TLS record, the handshake message in
 it and its extensions, with every length checked by hand.
 */
module Ja3 {
  import opened Bytes
  import opened Integers
  import opened Wrappers

  datatype ParseError = LengthErr(check: nat) | VersionErr(check: nat) | ContentTypeErr | HandshakeTypeErr | SniTypeErr

  /** Two lists are read without checking that the bytes are there; reading past the end panics. */
  datatype Verdict = Fine | Bad(error: ParseError) | Panic

  const SNI: u16 := 0
  const GROUPS: u16 := 10
  const POINT_FORMATS: u16 := 11
  const SIGNATURE_ALGORITHMS: u16 := 13
  const SUPPORTED_VERSIONS: u16 := 43

  /** What the extensions contribute. */
  datatype Extras = Extras(
    serverName: Text,
    extensions: seq<u16>,
    curves: seq<u16>,
    pointFormats: seq<byte>,
    versions: seq<u16>,
    signatureAlgorithms: seq<u16>)

  const NO_EXTRAS := Extras([], [], [], [], [], [])

  datatype Hello = Hello(version: u16, cipherSuites: seq<u16>, extras: Extras)

  // ----- reading lists -----

  function U16s(s: Text, n: nat): (r: seq<u16>)
    requires 2 * n <= |s|
    ensures |r| == n && forall i :: 0 <= i < n ==> r[i] == Pair(s[2 * i], s[2 * i + 1])
  {
    seq(n, i requires 0 <= i < n => Pair(s[2 * i], s[2 * i + 1]))
  }

  /** How many entries a list of `n` bytes is read as by a loop that steps by two; an odd byte counts as an entry. */
  function Entries(n: nat): nat {
    (n + 1) / 2
  }

  /** The list loop of the two extensions whose length is not checked against what is there. */
  method ReadUnchecked(s: Text, n: nat) returns (list: seq<u16>, panic: bool)
    ensures panic <==> 2 * Entries(n) > |s|
    ensures !panic ==> list == U16s(s, Entries(n))
  {
    list := [];
    var i := 0;
    while i < n
      invariant i == 2 * |list| && 2 * |list| <= |s| && 2 * |list| <= 2 * Entries(n)
      invariant list == U16s(s, |list|)
      decreases n - i
    {
      if i + 2 > |s| {
        return list, true;
      }
      list := list + [Pair(s[i], s[i + 1])];
      i := i + 2;
    }
    return list, false;
  }

  /** A list loop that counts entries, behind a length check. */
  method ReadChecked(s: Text, n: nat) returns (list: seq<u16>)
    requires 2 * n <= |s|
    ensures list == U16s(s, n)
  {
    list := [];
    for i := 0 to n
      invariant list == U16s(s, i)
    {
      list := list + [Pair(s[2 * i], s[2 * i + 1])];
    }
  }

  // ----- one extension -----

  function Judge(kind: u16, body: Text): Verdict {
    if kind == SNI then
      if |body| < 5 then Bad(LengthErr(13))
      else if |body| - 5 != U16At(body[3..]) then Bad(LengthErr(14))
      else if body[2] != 0 then Bad(SniTypeErr)
      else Fine
    else if kind == GROUPS then
      if |body| < 2 then Bad(LengthErr(15))
      else if |body| - 2 != U16At(body) then Bad(LengthErr(16))
      else Fine
    else if kind == POINT_FORMATS then
      if |body| < 1 then Bad(LengthErr(17))
      else if |body| - 1 != body[0] then Bad(LengthErr(18))
      else Fine
    else if kind == SUPPORTED_VERSIONS then
      if |body| < 1 then Bad(LengthErr(19))
      else if 2 * Entries(body[0]) > |body| - 1 then Panic
      else Fine
    else if kind == SIGNATURE_ALGORITHMS then
      if |body| < 2 then Bad(LengthErr(20))
      else if 2 * Entries(U16At(body)) > |body| - 2 then Panic
      else Fine
    else Fine
  }

  /** A repeated name, group list or format list replaces the one before; the other two lists grow. */
  function Note(x: Extras, kind: u16, body: Text): Extras
    requires Judge(kind, body).Fine?
  {
    var y := x.(extensions := x.extensions + [kind]);
    if kind == SNI then y.(serverName := body[5..])
    else if kind == GROUPS then y.(curves := U16s(body[2..], U16At(body) / 2))
    else if kind == POINT_FORMATS then y.(pointFormats := body[1..])
    else if kind == SUPPORTED_VERSIONS then y.(versions := y.versions + U16s(body[1..], Entries(body[0])))
    else if kind == SIGNATURE_ALGORITHMS then
      y.(signatureAlgorithms := y.signatureAlgorithms + U16s(body[2..], Entries(U16At(body))))
    else y
  }

  method TakeExtension(x: Extras, kind: u16, body: Text) returns (verdict: Verdict, y: Extras)
    ensures verdict == Judge(kind, body)
    ensures verdict.Fine? ==> y == Note(x, kind, body)
  {
    y := x.(extensions := x.extensions + [kind]);
    if kind == SNI {
      if |body| < 5 {
        return Bad(LengthErr(13)), y;
      }
      var sniLen := U16At(body[3..]);
      var name := body[5..];
      if |name| != sniLen {
        return Bad(LengthErr(14)), y;
      }
      if body[2] != 0 {
        return Bad(SniTypeErr), y;
      }
      y := y.(serverName := name);
    } else if kind == GROUPS {
      if |body| < 2 {
        return Bad(LengthErr(15)), y;
      }
      if |body[2..]| != U16At(body) {
        return Bad(LengthErr(16)), y;
      }
      var curves := ReadChecked(body[2..], U16At(body) / 2);
      y := y.(curves := curves);
    } else if kind == POINT_FORMATS {
      if |body| < 1 {
        return Bad(LengthErr(17)), y;
      }
      if |body[1..]| != body[0] {
        return Bad(LengthErr(18)), y;
      }
      y := y.(pointFormats := body[1..]);
    } else if kind == SUPPORTED_VERSIONS {
      if |body| < 1 {
        return Bad(LengthErr(19)), y;
      }
      var versions, panic := ReadUnchecked(body[1..], body[0]);
      if panic {
        return Panic, y;
      }
      y := y.(versions := y.versions + versions);
    } else if kind == SIGNATURE_ALGORITHMS {
      if |body| < 2 {
        return Bad(LengthErr(20)), y;
      }
      var algorithms, panic := ReadUnchecked(body[2..], U16At(body));
      if panic {
        return Panic, y;
      }
      y := y.(signatureAlgorithms := y.signatureAlgorithms + algorithms);
    }
    return Fine, y;
  }

  // ----- the extension loop -----

  datatype Walked = Walked(verdict: Verdict, extras: Extras)

  function Walk(exs: Text, x: Extras): Walked
    decreases |exs|
  {
    if exs == [] then Walked(Fine, x)
    else if |exs| < 4 then Walked(Bad(LengthErr(11)), x)
    else
      var length := U16At(exs[2..]);
      if |exs| < 4 + length then Walked(Bad(LengthErr(12)), x)
      else
        var kind, body := U16At(exs), exs[4..4 + length];
        if Judge(kind, body) != Fine then Walked(Judge(kind, body), x)
        else Walk(exs[4 + length..], Note(x, kind, body))
  }

  lemma WalkUnfolds(exs: Text, x: Extras)
    ensures exs == [] ==> Walk(exs, x) == Walked(Fine, x)
    ensures 0 < |exs| < 4 ==> Walk(exs, x) == Walked(Bad(LengthErr(11)), x)
    ensures |exs| >= 4 ==>
      var kind, length := U16At(exs), U16At(exs[2..]);
      && (|exs| < 4 + length ==> Walk(exs, x) == Walked(Bad(LengthErr(12)), x))
      && (|exs| >= 4 + length ==>
            var judged := Judge(kind, exs[4..4 + length]);
            Walk(exs, x) == if judged.Fine? then Walk(exs[4 + length..], Note(x, kind, exs[4..4 + length]))
                else Walked(judged, x))
  {
    hide Judge, Note, U16At;
  }

  /**
   The loop adds four to the length in sixteen bits. What is left of a record never exceeds
   65535 bytes, so the sum does not wrap around and every turn shortens what is left.
   */
  method WalkExtensions(block: Text) returns (verdict: Verdict, extras: Extras)
    requires |block| < 0x1_0000
    ensures verdict == Walk(block, NO_EXTRAS).verdict
    ensures verdict.Fine? ==> extras == Walk(block, NO_EXTRAS).extras
  {
    hide Judge, Note, Walk, U16At;
    extras := NO_EXTRAS;
    var exs := block;
    while |exs| > 0
      invariant |exs| < 0x1_0000
      invariant Walk(block, NO_EXTRAS) == Walk(exs, extras)
      decreases |exs|
    {
      WalkUnfolds(exs, extras);
      if |exs| < 4 {
        return Bad(LengthErr(11)), extras;
      }
      var kind := U16At(exs);
      var length: int := U16At(exs[2..]);
      if |exs| < 4 + length {
        return Bad(LengthErr(12)), extras;
      }
      var next;
      verdict, next := TakeExtension(extras, kind, exs[4..4 + length]);
      if verdict != Fine {
        return verdict, extras;
      }
      extras := next;
      var step: u16 := (4 + length) % 0x1_0000;
      exs := exs[step..];
    }
    WalkUnfolds([], extras);
    return Fine, extras;
  }

  // ----- the record and the handshake message -----

  datatype Out = Out(verdict: Verdict, hello: Hello)

  /** SSL 3.0 to TLS 1.2, by the mask that leaves out the last two bits, and TLS 1.3. */
  predicate Supported(v: u16) {
    v - v % 4 == 0x0300 || v == 0x0304
  }

  function Block(exs: Text, h: Hello): Out {
    if exs == [] then Out(Fine, h)
    else if |exs| < 2 then Out(Bad(LengthErr(9)), h)
    else if |exs| - 2 < U16At(exs) then Out(Bad(LengthErr(10)), h)
    else
      var w := Walk(exs[2..], NO_EXTRAS);
      Out(w.verdict, if w.verdict.Fine? then h.(extras := w.extras) else h)
  }

  /** What the checks before the extension block come to: an error, or the block and what was read before it. */
  datatype Head = Stopped(out: Out) | Reached(block: Text, hello: Hello)

  function Stop(e: ParseError, h: Hello): Head {
    Stopped(Out(Bad(e), h))
  }

  function Suites(cs: Text, h: Hello): Head {
    if |cs| < 2 then Stop(LengthErr(6), h)
    else
      var length := U16At(cs);
      if |cs| < 2 + length + 1 then Stop(LengthErr(7), h)
      else
        var h1 := h.(cipherSuites := U16s(cs[2..], length / 2));
        var compression := cs[2 + length];
        if |cs| < 3 + length + compression then Stop(LengthErr(8), h1)
        else Reached(cs[3 + length + compression..], h1)
  }

  function Handshake(hs: Text, h: Hello): Head {
    if |hs| < 39 then Stop(LengthErr(3), h)
    else if hs[0] != 1 then Stop(HandshakeTypeErr, h)
    else if |hs| - 4 != U24At(hs[1..]) then Stop(LengthErr(4), h)
    else if !Supported(U16At(hs[4..])) then Stop(VersionErr(2), h)
    else
      var h1 := h.(version := U16At(hs[4..]));
      if |hs| < 39 + (hs[38] as int) then Stop(LengthErr(5), h1)
      else Suites(hs[39 + hs[38]..], h1)
  }

  function SegmentHead(s: Text, h: Hello): Head {
    if |s| < 5 then Stop(LengthErr(1), h)
    else if s[0] != 22 then Stop(ContentTypeErr, h)
    else if !Supported(U16At(s[1..])) then Stop(VersionErr(1), h)
    else if |s| - 5 < U16At(s[3..]) then Stop(LengthErr(2), h)
    else Handshake(s[5..5 + U16At(s[3..])], h)
  }

  function Through(head: Head): Out {
    match head
    case Stopped(out) => out
    case Reached(block, h) => Block(block, h)
  }

  function Segment(s: Text, h: Hello): Out {
    Through(SegmentHead(s, h))
  }

  /** The object the parser fills in; after an error it keeps what was read before. */
  class ClientHello {
    var version: u16
    var cipherSuites: seq<u16>
    var extensions: seq<u16>
    var curves: seq<u16>
    var pointFormats: seq<byte>
    var versions: seq<u16>
    var signatureAlgorithms: seq<u16>
    var serverName: Text

    function Contents(): Hello
      reads this
    {
      Hello(version, cipherSuites, Extras(serverName, extensions, curves, pointFormats, versions, signatureAlgorithms))
    }

    constructor ()
      ensures Contents() == Hello(0, [], NO_EXTRAS)
    {
      version, cipherSuites, extensions, curves := 0, [], [], [];
      pointFormats, versions, signatureAlgorithms, serverName := [], [], [], [];
    }

    method ParseSegment(s: Text) returns (verdict: Verdict)
      modifies this
      ensures Out(verdict, Contents()) == Segment(s, old(Contents()))
    {
      hide Handshake;
      if |s| < 5 {
        return Bad(LengthErr(1));
      }
      if s[0] != 22 {
        return Bad(ContentTypeErr);
      }
      if !Supported(U16At(s[1..])) {
        return Bad(VersionErr(1));
      }
      var length := U16At(s[3..]);
      if |s[5..]| < length {
        return Bad(LengthErr(2));
      }
      verdict := ParseHandshake(s[5..5 + length]);
    }

    method ParseHandshake(hs: Text) returns (verdict: Verdict)
      requires |hs| < 0x1_0000
      modifies this
      ensures Out(verdict, Contents()) == Through(Handshake(hs, old(Contents())))
    {
      hide Block, U16s;
      if |hs| < 39 {
        return Bad(LengthErr(3));
      }
      if hs[0] != 1 {
        return Bad(HandshakeTypeErr);
      }
      if |hs[4..]| != U24At(hs[1..]) {
        return Bad(LengthErr(4));
      }
      var tlsVersion := U16At(hs[4..]);
      if !Supported(tlsVersion) {
        return Bad(VersionErr(2));
      }
      version := tlsVersion;
      if |hs| < 39 + (hs[38] as int) {
        return Bad(LengthErr(5));
      }
      var cs := hs[39 + hs[38]..];
      if |cs| < 2 {
        return Bad(LengthErr(6));
      }
      var length: int := U16At(cs);
      if |cs| < 2 + length + 1 {
        return Bad(LengthErr(7));
      }
      cipherSuites := ReadChecked(cs[2..], length / 2);
      var compression: int := cs[2 + length];
      if |cs| < 3 + length + compression {
        return Bad(LengthErr(8));
      }
      verdict := ParseExtensions(cs[3 + length + compression..]);
    }

    method ParseExtensions(exs: Text) returns (verdict: Verdict)
      requires |exs| < 0x1_0000
      modifies this
      ensures Out(verdict, Contents()) == Block(exs, old(Contents()))
    {
      hide Walk;
      if |exs| == 0 {
        return Fine;
      }
      if |exs| < 2 {
        return Bad(LengthErr(9));
      }
      if |exs[2..]| < U16At(exs) {
        return Bad(LengthErr(10));
      }
      var extras;
      verdict, extras := WalkExtensions(exs[2..]);
      if verdict == Fine {
        serverName, extensions, curves := extras.serverName, extras.extensions, extras.curves;
        pointFormats, versions, signatureAlgorithms := extras.pointFormats, extras.versions, extras.signatureAlgorithms;
      }
    }
  }

  // ----- when parsing panics -----

  /** One of the two lists that are longer than the extension they stand in. */
  predicate ShortList(kind: u16, body: Text) {
    || (kind == SUPPORTED_VERSIONS && |body| >= 1 && body[0] + body[0] % 2 > |body| - 1)
    || (kind == SIGNATURE_ALGORITHMS && |body| >= 2 && U16At(body) + U16At(body) % 2 > |body| - 2)
  }

  lemma RoundedUp(n: nat)
    ensures 2 * Entries(n) == n + n % 2
  {
  }

  /**
   What is wrong with an extension: a body too short for its fixed part, a name or list that does not
   fill the rest of it, a name of an unknown type, or an unchecked list that is not there. Everything
   else is fine, and so is any extension of another kind.
   */
  lemma WhatIsBad(kind: u16, body: Text)
    ensures var verdict, n := Judge(kind, body), |body|;
            && (kind == 0 ==>
                  && (n < 5 <==> verdict == Bad(LengthErr(13)))
                  && (n >= 5 ==> (verdict == Bad(LengthErr(14)) <==> n - 5 != 0x100 * body[3] as int + body[4]))
                  && (verdict == Bad(SniTypeErr) <==>
                        n >= 5 && n - 5 == 0x100 * body[3] as int + body[4] && body[2] != 0))
            && (kind == 10 ==>
                  && (n < 2 <==> verdict == Bad(LengthErr(15)))
                  && (n >= 2 ==> (verdict == Bad(LengthErr(16)) <==> n - 2 != 0x100 * body[0] as int + body[1])))
            && (kind == 11 ==>
                  && (n < 1 <==> verdict == Bad(LengthErr(17)))
                  && (n >= 1 ==> (verdict == Bad(LengthErr(18)) <==> n - 1 != body[0])))
            && (kind == 43 ==> (n < 1 <==> verdict == Bad(LengthErr(19))))
            && (kind == 13 ==> (n < 2 <==> verdict == Bad(LengthErr(20))))
            && (verdict.Panic? <==> ShortList(kind, body))
            && (verdict.Bad? ==>
                  || (kind == 0 && verdict.error in {LengthErr(13), LengthErr(14), SniTypeErr})
                  || (kind == 10 && verdict.error in {LengthErr(15), LengthErr(16)})
                  || (kind == 11 && verdict.error in {LengthErr(17), LengthErr(18)})
                  || (kind == 43 && verdict.error == LengthErr(19)) || (kind == 13 && verdict.error == LengthErr(20)))
  {
    if |body| >= 1 {
      RoundedUp(body[0]);
    }
    if |body| >= 2 {
      RoundedUp(U16At(body));
    }
    hide Entries;
  }

  datatype Frame = Frame(kind: u16, body: Text)

  /** The extensions as far as their own headers delimit them. */
  function Frames(exs: Text): seq<Frame>
    decreases |exs|
  {
    if |exs| < 4 || |exs| < 4 + U16At(exs[2..]) then []
    else
      var length := U16At(exs[2..]);
      [Frame(U16At(exs), exs[4..4 + length])] + Frames(exs[4 + length..])
  }

  predicate FirstBad(frames: seq<Frame>, k: nat) {
    && k < |frames| && !Judge(frames[k].kind, frames[k].body).Fine?
    && forall j :: 0 <= j < k ==> Judge(frames[j].kind, frames[j].body).Fine?
  }

  /**
   The first extension that is not fine settles the outcome; a panic is always such an extension's list
   running short.
   */
  lemma {:induction false} FirstBadDecides(exs: Text, x: Extras, k: nat)
    requires FirstBad(Frames(exs), k)
    ensures Walk(exs, x).verdict == Judge(Frames(exs)[k].kind, Frames(exs)[k].body)
    ensures Walk(exs, x).verdict.Panic? <==> ShortList(Frames(exs)[k].kind, Frames(exs)[k].body)
    decreases |exs|
  {
    var length := U16At(exs[2..]);
    var f, rest := Frames(exs)[0], exs[4 + length..];
    WhatIsBad(Frames(exs)[k].kind, Frames(exs)[k].body);
    hide Judge, Note, ShortList;
    if k > 0 {
      assert Frames(exs) == [f] + Frames(rest);
      forall j | 0 <= j < k - 1 ensures Judge(Frames(rest)[j].kind, Frames(rest)[j].body).Fine? {
        assert Frames(rest)[j] == Frames(exs)[j + 1];
      }
      FirstBadDecides(rest, Note(x, f.kind, f.body), k - 1);
    }
  }

  lemma {:induction false} NoBadNoPanic(exs: Text, x: Extras)
    requires forall f :: f in Frames(exs) ==> Judge(f.kind, f.body).Fine?
    ensures !Walk(exs, x).verdict.Panic?
    decreases |exs|
  {
    hide Judge, Note;
    if Frames(exs) != [] {
      var f := Frames(exs)[0];
      var rest := exs[4 + U16At(exs[2..])..];
      assert Frames(exs) == [f] + Frames(rest);
      NoBadNoPanic(rest, Note(x, f.kind, f.body));
    }
  }

  lemma {:induction false} SomeFirstBad(frames: seq<Frame>) returns (k: nat)
    requires exists f :: f in frames && !Judge(f.kind, f.body).Fine?
    ensures FirstBad(frames, k)
  {
    hide Judge;
    if !Judge(frames[0].kind, frames[0].body).Fine? {
      k := 0;
    } else {
      k := SomeFirstBad(frames[1..]);
      k := k + 1;
    }
  }

  /** The first extension that is not fine holds a list cut short. */
  ghost predicate ShortListFirst(frames: seq<Frame>) {
    exists k: nat :: FirstBad(frames, k) && ShortList(frames[k].kind, frames[k].body)
  }

  lemma WalkPanicsExactly(exs: Text, x: Extras)
    ensures Walk(exs, x).verdict.Panic? <==> ShortListFirst(Frames(exs))
  {
    hide Judge, Note, ShortList, Walk, Frames;
    if ShortListFirst(Frames(exs)) {
      var j: nat :| FirstBad(Frames(exs), j) && ShortList(Frames(exs)[j].kind, Frames(exs)[j].body);
      hide FirstBad;
      FirstBadDecides(exs, x, j);
    } else if exists f :: f in Frames(exs) && !Judge(f.kind, f.body).Fine? {
      var k := SomeFirstBad(Frames(exs));
      hide FirstBad;
      FirstBadDecides(exs, x, k);
    } else {
      NoBadNoPanic(exs, x);
    }
  }

  /**
   Parsing a record panics exactly when the checks lead to an extension block as long as it says
   and, of the extensions in it, the first that is not fine holds a list cut short.
   */
  lemma PanicsExactly(s: Text, h: Hello, head: Head)
    requires head == SegmentHead(s, h)
    ensures Segment(s, h).verdict.Panic? <==>
              && head.Reached? && |head.block| >= 2 && U16At(head.block) <= |head.block| - 2
              && ShortListFirst(Frames(head.block[2..]))
  {
    NoPanicBefore(s, h);
    hide SegmentHead, Walk, ShortListFirst;
    if head.Reached? && |head.block| >= 2 {
      WalkPanicsExactly(head.block[2..], NO_EXTRAS);
    }
  }

  lemma NoPanicBefore(s: Text, h: Hello)
    ensures SegmentHead(s, h).Stopped? ==> SegmentHead(s, h).out.verdict.Bad?
  {
  }

  /** The numbers of SSL 3.0 and of TLS 1.0 to 1.3. */
  lemma SupportedNumbers(v: u16)
    ensures Supported(v) <==> v in [0x0300, 0x0301, 0x0302, 0x0303, 0x0304]
  {
  }

  predicate Fails(s: Text, h: Hello, e: ParseError) {
    Segment(s, h) == Out(Bad(e), h)
  }

  /** The checks of the record, in order; a failed one leaves everything as it was. */
  lemma RecordChecks(s: Text, h: Hello)
    ensures |s| < 5 ==> Fails(s, h, LengthErr(1))
    ensures |s| >= 5 && s[0] != 22 ==> Fails(s, h, ContentTypeErr)
    ensures |s| >= 5 && s[0] == 22 && !Supported(U16At(s[1..])) ==> Fails(s, h, VersionErr(1))
    ensures |s| >= 5 && s[0] == 22 && Supported(U16At(s[1..])) && |s| - 5 < U16At(s[3..]) ==> Fails(s, h, LengthErr(2))
    ensures |s| >= 5 && s[0] == 22 && Supported(U16At(s[1..])) && |s| - 5 >= U16At(s[3..]) ==>
              Segment(s, h) == Through(Handshake(s[5..5 + U16At(s[3..])], h))
  {
  }

  /** Those of the message. */
  lemma MessageChecks(hs: Text, h: Hello)
    ensures var head := Handshake(hs, h);
            && (|hs| < 39 ==> head == Stop(LengthErr(3), h))
            && (|hs| >= 39 ==>
                  var length := 0x1_0000 * hs[1] as int + 0x100 * hs[2] as int + hs[3];
                  && (hs[0] != 1 ==> head == Stop(HandshakeTypeErr, h))
                  && (hs[0] == 1 && |hs| - 4 != length ==> head == Stop(LengthErr(4), h))
                  && (hs[0] == 1 && |hs| - 4 == length && !Supported(U16At(hs[4..])) ==> head == Stop(VersionErr(2), h))
                  && (hs[0] == 1 && |hs| - 4 == length && Supported(U16At(hs[4..])) ==>
                        var read := h.(version := U16At(hs[4..]));
                        head == if |hs| < 39 + hs[38] as int then Stop(LengthErr(5), read)
                                else Suites(hs[39 + hs[38] as int..], read)))
  {
  }

  /** And those of the cipher suites, the compression methods and the extension block. */
  lemma BlockChecks(cs: Text, h: Hello)
    ensures var out := Through(Suites(cs, h));
            && (|cs| < 2 ==> out == Out(Bad(LengthErr(6)), h))
            && (|cs| >= 2 ==>
                  var n := U16At(cs);
                  && (|cs| < 3 + n ==> out == Out(Bad(LengthErr(7)), h))
                  && (|cs| >= 3 + n ==>
                        var read, rest := h.(cipherSuites := U16s(cs[2..], n / 2)), |cs| - 3 - n - cs[2 + n];
                        && (rest < 0 ==> out == Out(Bad(LengthErr(8)), read))
                        && (rest == 0 ==> out == Out(Fine, read))
                        && (rest == 1 ==> out == Out(Bad(LengthErr(9)), read))
                        && (rest >= 2 ==>
                              var block := cs[|cs| - rest..];
                              if rest - 2 < U16At(block) then out == Out(Bad(LengthErr(10)), read)
                              else
                                var w := Walk(block[2..], NO_EXTRAS);
                                out == Out(w.verdict, if w.verdict.Fine? then read.(extras := w.extras) else read))))
  {
    hide Walk;
  }

  // ----- well-formed messages -----

  datatype Extension =
    | ServerName(listLength: u16, name: Text)
    | Groups(curves: seq<u16>)
    | PointFormats(formats: seq<byte>)
    | SupportedVersions(versions: seq<u16>)
    | SignatureAlgorithms(algorithms: seq<u16>)
    | Other(kind: u16, data: Text)

  predicate Conforms(e: Extension) {
    match e
    case ServerName(_, name) => |name| + 5 < 0x1_0000
    case Groups(curves) => 2 * |curves| + 2 < 0x1_0000
    case PointFormats(formats) => |formats| < 0x100
    case SupportedVersions(versions) => 2 * |versions| < 0x100
    case SignatureAlgorithms(algorithms) => 2 * |algorithms| + 2 < 0x1_0000
    case Other(kind, data) =>
      && |data| < 0x1_0000
      && kind !in {SNI, GROUPS, POINT_FORMATS, SUPPORTED_VERSIONS, SIGNATURE_ALGORITHMS}
  }

  function PutU16s(ns: seq<u16>): (s: Text)
    ensures |s| == 2 * |ns|
    decreases ns
  {
    if ns == [] then [] else PutU16(ns[0]) + PutU16s(ns[1..])
  }

  lemma {:induction false} PutU16sAt(ns: seq<u16>, i: nat)
    requires i < |ns|
    ensures Pair(PutU16s(ns)[2 * i], PutU16s(ns)[2 * i + 1]) == ns[i]
  {
    if i > 0 {
      PutU16sAt(ns[1..], i - 1);
    }
  }

  lemma EntryRoundTrip(ns: seq<u16>, rest: Text, i: nat)
    requires i < |ns|
    ensures U16s(PutU16s(ns) + rest, |ns|)[i] == ns[i]
  {
    hide PutU16s, Pair, U16s;
    PutU16sAt(ns, i);
    var s := PutU16s(ns) + rest;
    assert s[2 * i] == PutU16s(ns)[2 * i] && s[2 * i + 1] == PutU16s(ns)[2 * i + 1];
  }

  lemma U16sRoundTrip(ns: seq<u16>, rest: Text)
    ensures U16s(PutU16s(ns) + rest, |ns|) == ns
  {
    hide U16s, PutU16s, Pair;
    forall i: nat | i < |ns| ensures U16s(PutU16s(ns) + rest, |ns|)[i] == ns[i] {
      EntryRoundTrip(ns, rest, i);
    }
  }

  function KindOf(e: Extension): u16 {
    match e
    case ServerName(_, _) => SNI
    case Groups(_) => GROUPS
    case PointFormats(_) => POINT_FORMATS
    case SupportedVersions(_) => SUPPORTED_VERSIONS
    case SignatureAlgorithms(_) => SIGNATURE_ALGORITHMS
    case Other(kind, _) => kind
  }

  function BodyOf(e: Extension): (s: Text)
    requires Conforms(e)
    ensures |s| < 0x1_0000
  {
    match e
    case ServerName(listLength, name) => PutU16(listLength) + ([0] + (PutU16(|name|) + name))
    case Groups(curves) => PutU16(2 * |curves|) + PutU16s(curves)
    case PointFormats(formats) => [|formats|] + formats
    case SupportedVersions(versions) => [2 * |versions|] + PutU16s(versions)
    case SignatureAlgorithms(algorithms) => PutU16(2 * |algorithms|) + PutU16s(algorithms)
    case Other(_, data) => data
  }

  function Encode(kind: u16, body: Text): Text
    requires |body| < 0x1_0000
  {
    PutU16(kind) + (PutU16(|body|) + body)
  }

  function EncodeAll(es: seq<Extension>): Text
    requires forall e :: e in es ==> Conforms(e)
    decreases es
  {
    if es == [] then [] else Encode(KindOf(es[0]), BodyOf(es[0])) + EncodeAll(es[1..])
  }

  /** What a well-formed extension adds to what was noted before. */
  function Add(x: Extras, e: Extension): Extras {
    var y := x.(extensions := x.extensions + [KindOf(e)]);
    match e
    case ServerName(_, name) => y.(serverName := name)
    case Groups(curves) => y.(curves := curves)
    case PointFormats(formats) => y.(pointFormats := formats)
    case SupportedVersions(versions) => y.(versions := y.versions + versions)
    case SignatureAlgorithms(algorithms) => y.(signatureAlgorithms := y.signatureAlgorithms + algorithms)
    case Other(_, _) => y
  }

  function AddAll(x: Extras, es: seq<Extension>): Extras
    decreases es
  {
    if es == [] then x else AddAll(Add(x, es[0]), es[1..])
  }

  /**
   The extensions the parser looks into by their numbers and layouts (section 4.2 of RFC 8446 and
   section 5.1.2 of RFC 8422); whoever speaks of them anywhere speaks of these bytes.
   */
  lemma ExtensionBytes(kind: u16, n: u16)
    ensures KindOf(ServerName(n, [97])) == 0 && BodyOf(ServerName(n, [97])) == PutU16(n) + [0, 0, 1, 97]
    ensures KindOf(Groups([29, 23])) == 10 && BodyOf(Groups([29, 23])) == [0, 4, 0, 29, 0, 23]
    ensures KindOf(PointFormats([0, 2])) == 11 && BodyOf(PointFormats([0, 2])) == [2, 0, 2]
    ensures KindOf(SignatureAlgorithms([0x0403])) == 13 && BodyOf(SignatureAlgorithms([0x0403])) == [0, 2, 4, 3]
    ensures KindOf(SupportedVersions([0x0304])) == 43 && BodyOf(SupportedVersions([0x0304])) == [2, 3, 4]
    ensures Conforms(Other(kind, [7])) <==> kind !in [0, 10, 11, 13, 43]
    ensures kind !in [0, 10, 11, 13, 43] ==> KindOf(Other(kind, [7])) == kind && BodyOf(Other(kind, [7])) == [7]
    ensures Encode(10, [7]) == [0, 10, 0, 1, 7]
  {
    assert [29, 23][1..] == [23] && [23][1..] == [];
    assert [0x0403][1..] == [] && [0x0304][1..] == [];
    assert PutU16s([29, 23]) == PutU16(29) + PutU16s([23]) && PutU16s([23]) == PutU16(23) + PutU16s([]);
    assert PutU16s([0x0403]) == PutU16(0x0403) + PutU16s([]) && PutU16s([0x0304]) == PutU16(0x0304) + PutU16s([]);
  }

  lemma ExtensionRoundTrip(x: Extras, e: Extension)
    requires Conforms(e)
    ensures Judge(KindOf(e), BodyOf(e)).Fine? && Note(x, KindOf(e), BodyOf(e)) == Add(x, e)
  {
    hide U16s, Pair, PutU16s, U16At, PutU16;
    var body := BodyOf(e);
    match e {
      case ServerName(listLength, name) =>
        assert body[3..] == PutU16(|name|) + name;
        U16RoundTrip(|name|, name);
        assert body[5..] == name && body[2] == 0;
      case Groups(curves) =>
        U16RoundTrip(2 * |curves|, PutU16s(curves));
        assert PutU16s(curves) + [] == PutU16s(curves);
        U16sRoundTrip(curves, []);
      case PointFormats(formats) =>
        assert body[1..] == formats;
      case SupportedVersions(versions) =>
        assert body[1..] == PutU16s(versions) + [];
        U16sRoundTrip(versions, []);
      case SignatureAlgorithms(algorithms) =>
        U16RoundTrip(2 * |algorithms|, PutU16s(algorithms));
        assert PutU16s(algorithms) + [] == PutU16s(algorithms);
        U16sRoundTrip(algorithms, []);
      case Other(_, _) =>
    }
  }

  lemma WalkOne(kind: u16, body: Text, rest: Text, x: Extras)
    requires |body| < 0x1_0000
    ensures Walk(Encode(kind, body) + rest, x)
         == if Judge(kind, body).Fine? then Walk(rest, Note(x, kind, body)) else Walked(Judge(kind, body), x)
  {
    hide Judge, Note, U16At;
    var tail := PutU16(|body|) + (body + rest);
    var exs := Encode(kind, body) + rest;
    assert exs == PutU16(kind) + tail;
    U16RoundTrip(kind, tail);
    U16RoundTrip(|body|, body + rest);
    assert exs[4..4 + |body|] == body && exs[4 + |body|..] == rest;
  }

  lemma {:induction false} WalkRoundTrip(es: seq<Extension>, x: Extras)
    requires forall e :: e in es ==> Conforms(e)
    ensures Walk(EncodeAll(es), x) == Walked(Fine, AddAll(x, es))
    decreases es
  {
    if es != [] {
      ExtensionRoundTrip(x, es[0]);
      WalkOne(KindOf(es[0]), BodyOf(es[0]), EncodeAll(es[1..]), x);
      WalkRoundTrip(es[1..], Add(x, es[0]));
    }
  }

  function Kinds(es: seq<Extension>): seq<u16> {
    seq(|es|, i requires 0 <= i < |es| => KindOf(es[i]))
  }

  /** When no extension comes twice, as section 4.2 of RFC 8446 demands, each is recovered as it stands. */
  lemma {:induction false} EachIsRecovered(x: Extras, es: seq<Extension>, k: nat)
    requires k < |es| && forall j :: 0 <= j < |es| && j != k ==> KindOf(es[j]) != KindOf(es[k])
    ensures var y := AddAll(x, es);
            && y.extensions == x.extensions + Kinds(es)
            && (es[k].ServerName? ==> y.serverName == es[k].name)
            && (es[k].Groups? ==> y.curves == es[k].curves)
            && (es[k].PointFormats? ==> y.pointFormats == es[k].formats)
            && (es[k].SupportedVersions? ==> y.versions == x.versions + es[k].versions)
            && (es[k].SignatureAlgorithms? ==>
                  y.signatureAlgorithms == x.signatureAlgorithms + es[k].algorithms)
    decreases es
  {
    var next, rest := Add(x, es[0]), es[1..];
    assert Kinds(es) == [KindOf(es[0])] + Kinds(rest);
    KindsInOrder(next, rest);
    if k > 0 {
      assert rest[k - 1] == es[k];
      EachIsRecovered(next, rest, k - 1);
    } else {
      UntouchedByOthers(next, rest, es[0]);
    }
  }

  lemma {:induction false} KindsInOrder(x: Extras, es: seq<Extension>)
    ensures AddAll(x, es).extensions == x.extensions + Kinds(es)
    decreases es
  {
    if es != [] {
      KindsInOrder(Add(x, es[0]), es[1..]);
      assert Kinds(es) == [KindOf(es[0])] + Kinds(es[1..]);
    }
  }

  lemma {:induction false} UntouchedByOthers(x: Extras, es: seq<Extension>, e: Extension)
    requires forall f :: f in es ==> KindOf(f) != KindOf(e)
    ensures var y := AddAll(x, es);
            && (e.ServerName? ==> y.serverName == x.serverName)
            && (e.Groups? ==> y.curves == x.curves)
            && (e.PointFormats? ==> y.pointFormats == x.pointFormats)
            && (e.SupportedVersions? ==> y.versions == x.versions)
            && (e.SignatureAlgorithms? ==> y.signatureAlgorithms == x.signatureAlgorithms)
    decreases es
  {
    if es != [] {
      UntouchedByOthers(Add(x, es[0]), es[1..], e);
    }
  }

  // ----- whole records -----

  /** Everything before the extension block, as section 4.1.2 of RFC 8446 lays it out, in one record. */
  datatype Header = Header(recordVersion: u16, version: u16, random: Text, session: Text, suites: seq<u16>,
      compression: Text)

  predicate WellFormed(h: Header) {
    && Supported(h.recordVersion) && Supported(h.version) && |h.random| == 32
    && |h.session| < 0x100 && 2 * |h.suites| < 0x1_0000 && |h.compression| < 0x100
  }

  function SuitesOf(h: Header, block: Text): (s: Text)
    requires WellFormed(h)
  {
    PutU16(2 * |h.suites|) + (PutU16s(h.suites) + ([|h.compression|] + (h.compression + block)))
  }

  function HandshakeBody(h: Header, block: Text): (s: Text)
    requires WellFormed(h)
  {
    PutU16(h.version) + (h.random + ([|h.session|] + (h.session + SuitesOf(h, block))))
  }

  predicate FitsRecord(h: Header, block: Text)
    requires WellFormed(h)
  {
    |HandshakeBody(h, block)| + 4 < 0x1_0000
  }

  function Record(h: Header, block: Text): Text
    requires WellFormed(h) && FitsRecord(h, block)
  {
    var body := HandshakeBody(h, block);
    [22] + (PutU16(h.recordVersion) + (PutU16(|body| + 4) + ([1] + (PutU24(|body|) + body))))
  }

  lemma SuitesReached(h: Header, block: Text, hello: Hello)
    requires WellFormed(h)
    ensures Suites(SuitesOf(h, block), hello) == Reached(block, hello.(cipherSuites := h.suites))
  {
    hide Block, U16At, U16s;
    var n := 2 * |h.suites|;
    var tail := PutU16s(h.suites) + ([|h.compression|] + (h.compression + block));
    var cs := SuitesOf(h, block);
    U16RoundTrip(n, tail);
    U16sRoundTrip(h.suites, [|h.compression|] + (h.compression + block));
    assert cs[2..] == tail;
    assert cs[2 + n] == |h.compression|;
    assert cs[3 + n + |h.compression|..] == block;
  }

  lemma HandshakeReached(h: Header, block: Text, hello: Hello)
    requires WellFormed(h) && FitsRecord(h, block)
    ensures Handshake([1] + (PutU24(|HandshakeBody(h, block)|) + HandshakeBody(h, block)), hello)
         == Suites(SuitesOf(h, block), hello.(version := h.version))
  {
    hide Suites, SuitesOf, U16At, U24At, PutU24;
    var body := HandshakeBody(h, block);
    var hs := [1] + (PutU24(|body|) + body);
    assert hs[1..] == PutU24(|body|) + body;
    U24RoundTrip(|body|, body);
    assert hs[4..] == body;
    U16RoundTrip(h.version, h.random + ([|h.session|] + (h.session + SuitesOf(h, block))));
    assert hs[38] == |h.session|;
    assert hs[39 + |h.session|..] == SuitesOf(h, block);
  }

  /**
   A well-formed record, whatever follows it, has its version and cipher suites read and its extension block
   parsed.
   */
  lemma BlockReached(h: Header, block: Text, after: Text, hello: Hello)
    requires WellFormed(h) && FitsRecord(h, block)
    ensures Segment(Record(h, block) + after, hello)
        == Block(block, hello.(version := h.version, cipherSuites := h.suites))
  {
    hide Handshake, HandshakeBody, Suites, Block, U16At;
    var body := HandshakeBody(h, block);
    var hs := [1] + (PutU24(|body|) + body);
    var s := Record(h, block) + after;
    assert s[1..] == PutU16(h.recordVersion) + (PutU16(|hs|) + (hs + after));
    U16RoundTrip(h.recordVersion, PutU16(|hs|) + (hs + after));
    assert s[3..] == PutU16(|hs|) + (hs + after);
    U16RoundTrip(|hs|, hs + after);
    assert s[5..5 + |hs|] == hs;
    HandshakeReached(h, block, hello);
    SuitesReached(h, block, hello.(version := h.version));
  }

  /** The extension block, which a message may also end without. */
  function BlockOf(extensions: Option<seq<Extension>>): Text
    requires extensions.Some? ==> forall e :: e in extensions.value ==> Conforms(e)
    requires extensions.Some? ==> |EncodeAll(extensions.value)| < 0x1_0000
  {
    if extensions.None? then [] else PutU16(|EncodeAll(extensions.value)|) + EncodeAll(extensions.value)
  }

  /** Parsing the encoding of a well-formed ClientHello recovers everything it says. */
  lemma HelloRoundTrip(h: Header, extensions: Option<seq<Extension>>, after: Text, hello: Hello)
    requires extensions.Some? ==> forall e :: e in extensions.value ==> Conforms(e)
    requires extensions.Some? ==> |EncodeAll(extensions.value)| < 0x1_0000
    requires WellFormed(h) && FitsRecord(h, BlockOf(extensions))
    ensures Segment(Record(h, BlockOf(extensions)) + after, hello)
         == Out(Fine, Hello(h.version, h.suites, if extensions.Some? then AddAll(NO_EXTRAS, extensions.value)
             else hello.extras))
  {
    hide Segment, Record, EncodeAll, Walk, AddAll;
    BlockReached(h, BlockOf(extensions), after, hello);
    if extensions.Some? {
      var es := extensions.value;
      U16RoundTrip(|EncodeAll(es)|, EncodeAll(es));
      WalkRoundTrip(es, NO_EXTRAS);
    }
  }

  /** The length of the extension block is a lower bound only: extensions behind it are parsed all the same. */
  lemma BlockLengthIsOnlyABound(n: u16, exs: Text, hello: Hello)
    requires n <= |exs| < 0x1_0000
    ensures Block(PutU16(n) + exs, hello) == Block(PutU16(|exs|) + exs, hello)
  {
    hide Walk;
    U16RoundTrip(n, exs);
    U16RoundTrip(|exs|, exs);
  }

  /** A supported-versions extension that promises one version and holds none makes the parser panic. */
  lemma PanicExample() returns (s: Text)
    ensures Segment(s, Hello(0, [], NO_EXTRAS)).verdict.Panic?
  {
    var h := Header(0x0301, 0x0303, seq(32, _ => 0), [], [], []);
    var exs := Encode(SUPPORTED_VERSIONS, [2]);
    var block := PutU16(|exs|) + exs;
    s := Record(h, block) + [];
    BlockReached(h, block, [], Hello(0, [], NO_EXTRAS));
    hide Segment, Walk;
    U16RoundTrip(|exs|, exs);
    assert exs + [] == exs;
    WalkOne(SUPPORTED_VERSIONS, [2], [], NO_EXTRAS);
  }
}
