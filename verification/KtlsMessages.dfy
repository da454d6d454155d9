/**
 The two post-handshake messages the kernel-TLS layer accepts, and their wire form (RFC 8446, sections 4.6.1
 and 4.6.3).
 */
module KtlsMessages {
  import opened Bytes
  import opened Integers
  import opened Wrappers

  datatype Message =
    | NewSessionTicket(lifetime: u32, ageAdd: u32, nonce: Text, ticket: Text, maxEarlyData: u32)
    | KeyUpdate(updateRequested: bool)

  const TYPE_NEW_SESSION_TICKET: byte := 4
  const TYPE_KEY_UPDATE: byte := 24
  const EXTENSION_EARLY_DATA: u16 := 42

  // ----- writing -----

  function Prefixed8(s: Text): Text
    requires |s| < 0x100
  {
    [|s|] + s
  }

  function Prefixed16(s: Text): Text
    requires |s| < 0x1_0000
  {
    PutU16(|s|) + s
  }

  function Extensions(maxEarlyData: u32): (s: Text)
    ensures |s| <= 8
  {
    if maxEarlyData > 0 then PutU16(EXTENSION_EARLY_DATA) + Prefixed16(PutU32(maxEarlyData)) else []
  }

  /** The length prefixes the builder uses bound the nonce and the ticket; longer ones are an error. */
  predicate Writable(m: Message) {
    m.NewSessionTicket? ==> |m.nonce| < 0x100 && |m.ticket| < 0x1_0000
  }

  function Body(m: Message): (s: Text)
    requires Writable(m)
    ensures |s| < 0x100_0000
  {
    match m
    case KeyUpdate(requested) => [if requested then 1 else 0]
    case NewSessionTicket(lifetime, ageAdd, nonce, ticket, maxEarlyData) =>
      PutU32(lifetime) + (PutU32(ageAdd)
          + (Prefixed8(nonce) + (Prefixed16(ticket) + Prefixed16(Extensions(maxEarlyData)))))
  }

  function Marshal(m: Message): Option<Text> {
    if Writable(m) then Some([if m.KeyUpdate? then TYPE_KEY_UPDATE else TYPE_NEW_SESSION_TICKET] + PutU24(|Body(m)|)
        + Body(m))
    else None
  }

  // ----- reading -----

  function Take32(s: Text): Option<(u32, Text)> {
    if |s| < 4 then None else Some((U32At(s), s[4..]))
  }

  function Take8Prefixed(s: Text): Option<(Text, Text)> {
    if |s| < 1 || |s| - 1 < s[0] then None else Some((s[1..1 + s[0]], s[1 + s[0]..]))
  }

  function Take16Prefixed(s: Text): Option<(Text, Text)> {
    if |s| < 2 || |s| < 2 + U16At(s) then None else Some((s[2..2 + U16At(s)], s[2 + U16At(s)..]))
  }

  /** The early-data limit after the extensions, `acc` before them; unknown extensions are skipped. */
  function EarlyData(extensions: Text, acc: u32): Option<u32>
    decreases |extensions|
  {
    if extensions == [] then Some(acc)
    else if |extensions| < 2 then None
    else
      match Take16Prefixed(extensions[2..])
      case None => None
      case Some((data, rest)) =>
        if U16At(extensions) != EXTENSION_EARLY_DATA then EarlyData(rest, acc)
        else if |data| != 4 then None
        else EarlyData(rest, U32At(data))
  }

  function UnmarshalKeyUpdate(data: Text): Option<Message> {
    if |data| != 5 || data[4] > 1 then None else Some(KeyUpdate(data[4] == 1))
  }

  function UnmarshalTicket(data: Text): Option<Message> {
    if |data| < 4 then None else TicketBody(data[4..])
  }

  function TicketBody(body: Text): Option<Message> {
    match Take32(body)
    case None => None
    case Some((lifetime, s1)) =>
      match Take32(s1)
      case None => None
      case Some((ageAdd, s2)) =>
        match Take8Prefixed(s2)
        case None => None
        case Some((nonce, s3)) =>
          match Take16Prefixed(s3)
          case None => None
          case Some((ticket, s4)) =>
            match Take16Prefixed(s4)
            case None => None
            case Some((extensions, s5)) =>
              if s5 != [] then None
              else
                match EarlyData(extensions, 0)
                case None => None
                case Some(limit) => Some(NewSessionTicket(lifetime, ageAdd, nonce, ticket, limit))
  }

  function Unmarshal(data: Text): Option<Message> {
    if data == [] then None
    else if data[0] == TYPE_NEW_SESSION_TICKET then UnmarshalTicket(data)
    else if data[0] == TYPE_KEY_UPDATE then UnmarshalKeyUpdate(data)
    else None
  }

  /** The loop over the extensions, as the code runs it. */
  method ReadExtensions(all: Text) returns (limit: Option<u32>)
    ensures limit == EarlyData(all, 0)
  {
    var extensions, maxEarlyData: u32 := all, 0;
    while extensions != []
      invariant EarlyData(extensions, maxEarlyData) == EarlyData(all, 0)
      decreases |extensions|
    {
      if |extensions| < 2 {
        return None;
      }
      var extension, data := U16At(extensions), Take16Prefixed(extensions[2..]);
      if data.None? {
        return None;
      }
      extensions := data.value.1;
      if extension == EXTENSION_EARLY_DATA {
        if |data.value.0| != 4 {
          return None;
        }
        maxEarlyData := U32At(data.value.0);
      }
    }
    return Some(maxEarlyData);
  }

  // ----- round trips -----

  lemma Take32Put(n: u32, rest: Text)
    ensures Take32(PutU32(n) + rest) == Some((n, rest))
  {
    U32RoundTrip(n, rest);
  }

  lemma Take8Put(s: Text, rest: Text)
    requires |s| < 0x100
    ensures Take8Prefixed(Prefixed8(s) + rest) == Some((s, rest))
  {
  }

  lemma Take16Put(s: Text, rest: Text)
    requires |s| < 0x1_0000
    ensures Take16Prefixed(Prefixed16(s) + rest) == Some((s, rest))
  {
    assert Prefixed16(s) + rest == PutU16(|s|) + (s + rest);
    U16RoundTrip(|s|, s + rest);
  }

  lemma EarlyDataPut(limit: u32, acc: u32)
    ensures EarlyData(Extensions(limit), acc) == Some(if limit > 0 then limit else acc)
  {
    if limit > 0 {
      var data := PutU32(limit);
      U16RoundTrip(EXTENSION_EARLY_DATA, Prefixed16(data));
      assert Prefixed16(data) + [] == Prefixed16(data) && data + [] == data;
      Take16Put(data, []);
      U32RoundTrip(limit, []);
    }
  }

  lemma TicketBodyRoundTrip(lifetime: u32, ageAdd: u32, nonce: Text, ticket: Text, maxEarlyData: u32)
    requires |nonce| < 0x100 && |ticket| < 0x1_0000
    ensures TicketBody(Body(NewSessionTicket(lifetime, ageAdd, nonce, ticket, maxEarlyData)))
         == Some(NewSessionTicket(lifetime, ageAdd, nonce, ticket, maxEarlyData))
  {
    hide Take32, Take8Prefixed, Take16Prefixed, EarlyData, Extensions, PutU32, Prefixed8, Prefixed16;
    var s4 := Prefixed16(Extensions(maxEarlyData));
    var s3 := Prefixed16(ticket) + s4;
    var s2 := Prefixed8(nonce) + s3;
    Take32Put(lifetime, PutU32(ageAdd) + s2);
    Take32Put(ageAdd, s2);
    Take8Put(nonce, s3);
    Take16Put(ticket, s4);
    Take16Put(Extensions(maxEarlyData), []);
    assert s4 + [] == s4;
    EarlyDataPut(maxEarlyData, 0);
  }

  /** A message survives the wire exactly when its parts fit their length prefixes. */
  lemma RoundTrip(m: Message)
    ensures match Marshal(m)
            case None => !Writable(m)
            case Some(data) => Writable(m) && Unmarshal(data) == Some(m)
  {
    if Writable(m) {
      var data := Marshal(m).value;
      assert data[4..] == Body(m);
      if m.NewSessionTicket? {
        TicketBodyRoundTrip(m.lifetime, m.ageAdd, m.nonce, m.ticket, m.maxEarlyData);
      }
    }
  }

  /** A key update is five bytes long (section 4.6.3 of RFC 8446). */
  lemma KeyUpdateBytes(requested: bool)
    ensures Marshal(KeyUpdate(requested)) == Some([24, 0, 0, 1, if requested then 1 else 0])
  {
    assert Body(KeyUpdate(requested)) == [if requested then 1 else 0];
    assert Marshal(KeyUpdate(requested)).value == [24, 0, 0, 1, if requested then 1 else 0];
  }

  /** A key update is read exactly from five bytes of which the last is 0 or 1. */
  lemma KeyUpdatesRead(data: Text)
    requires data != [] && data[0] == 24
    ensures Unmarshal(data).Some? <==> |data| == 5 && data[4] in [0, 1]
    ensures Unmarshal(data).Some? ==> Unmarshal(data) == Some(KeyUpdate(data[4] == 1))
  {
  }

  /** An extension of another number than 42 is passed over; one of that number has to be a limit, which counts. */
  lemma FirstExtension(kind: u16, data: Text, rest: Text, acc: u32)
    requires |data| < 0x1_0000
    ensures EarlyData(PutU16(kind) + (Prefixed16(data) + rest), acc)
         == if kind != 42 then EarlyData(rest, acc)
            else if |data| != 4 then None else EarlyData(rest, U32At(data))
  {
    hide PutU16, U16At, U32At, Prefixed16, Take16Prefixed;
    var extensions := PutU16(kind) + (Prefixed16(data) + rest);
    U16RoundTrip(kind, Prefixed16(data) + rest);
    Take16Put(data, rest);
    assert extensions != [];
  }

  /** `s` is the number in `size` bytes, the most significant first. */
  predicate Number(s: Text, size: nat, n: nat) {
    |s| == size && BigEndian(s) == n
  }

  /** The layout of a session ticket message (section 4.6.1 of RFC 8446), whose one extension has the number 42. */
  lemma TicketBytes(m: Message)
      returns (length: Text, lifetime: Text, ageAdd: Text, ticketLength: Text, limit: Text)
    requires m.NewSessionTicket? && Writable(m)
    ensures Marshal(m).value
         == [4] + length + (lifetime + (ageAdd + ([|m.nonce|] + m.nonce + (ticketLength + m.ticket
            + if m.maxEarlyData == 0 then [0, 0] else [0, 8, 0, 42, 0, 4] + limit))))
    ensures Number(length, 3, |Marshal(m).value| - 4)
    ensures Number(lifetime, 4, m.lifetime) && Number(ageAdd, 4, m.ageAdd)
    ensures Number(ticketLength, 2, |m.ticket|) && Number(limit, 4, m.maxEarlyData)
  {
    length, lifetime, ageAdd := PutU24(|Body(m)|), PutU32(m.lifetime), PutU32(m.ageAdd);
    ticketLength, limit := PutU16(|m.ticket|), PutU32(m.maxEarlyData);
    PutsAreBigEndian(|m.ticket|, |Body(m)|, m.lifetime);
    PutsAreBigEndian(0, 0, m.ageAdd);
    PutsAreBigEndian(0, 0, m.maxEarlyData);
    ExtensionBytes(m.maxEarlyData);
    hide BigEndian, PutU32, PutU24, PutU16, Extensions;
  }

  lemma ExtensionBytes(limit: u32)
    ensures Prefixed16(Extensions(limit)) == if limit == 0 then [0, 0] else [0, 8, 0, 42, 0, 4] + PutU32(limit)
  {
  }

  /** The length field of a marshalled message is the length of its body. */
  lemma MarshalFrame(m: Message, rest: Text)
    requires Writable(m)
    ensures var data := Marshal(m).value;
            && |data| == 4 + |Body(m)| && U24At((data + rest)[1..]) == |Body(m)|
            && (data + rest)[..|data|] == data && (data + rest)[|data|..] == rest
  {
    hide Body, PutU24, U24At;
    var data := Marshal(m).value;
    assert (data + rest)[1..] == PutU24(|Body(m)|) + (Body(m) + rest);
    U24RoundTrip(|Body(m)|, Body(m) + rest);
  }

  /**
   Whatever accepted bytes say is in the range of the writer: writing the parsed message
   and reading it again gives the same message, whatever unknown or repeated extensions were dropped.
   */
  lemma ParsedIsWritable(data: Text)
    requires Unmarshal(data).Some?
    ensures Marshal(Unmarshal(data).value).Some?
    ensures Unmarshal(Marshal(Unmarshal(data).value).value) == Unmarshal(data)
  {
    hide EarlyData;
    var m := Unmarshal(data).value;
    assert Writable(m);
    RoundTrip(m);
  }
}
