/**
 Reading from a kernel-TLS connection: records arrive from the kernel already decrypted,
 application data is handed to the caller, and handshake records are reassembled into
 post-handshake messages.
 */
module KtlsRead {
  import opened Bytes
  import opened KtlsMessages
  import opened Sequences
  import opened Wrappers

  const RECORD_CHANGE_CIPHER_SPEC: byte := 20
  const RECORD_ALERT: byte := 21
  const RECORD_HANDSHAKE: byte := 22
  const RECORD_APPLICATION_DATA: byte := 23

  const MAX_PLAINTEXT := 16384
  const MAX_HANDSHAKE := 65536

  const ALERT_CLOSE_NOTIFY: byte := 0
  const ALERT_UNEXPECTED_MESSAGE: byte := 10
  const ALERT_RECORD_OVERFLOW: byte := 22
  const ALERT_DECODE_ERROR: byte := 50
  const ALERT_USER_CANCELED: byte := 90
  const ALERT_LEVEL_WARNING: byte := 1
  const ALERT_LEVEL_ERROR: byte := 2

  datatype Record = Record(kind: byte, data: Text)

  datatype ReadFailure =
    | EndOfStream
    | LocalAlert(code: byte)      // an alert sent to the peer
    | RemoteAlert(code: byte)     // an alert received from the peer
    | HandshakeTooLong(size: nat)
    | NoRenegotiation             // a handshake record before TLS 1.3

  // ----- one record -----

  /** What the next record that is not dropped means for the reader. */
  datatype Step =
    | Application(data: Text)
    | Handshake(data: Text)
    | Failure(error: ReadFailure)

  /** How the code treats one record; None when it drops the record and reads the next one. */
  function Judge(r: Record, tls13: bool, protected: bool, partial: bool): Option<Step> {
    if r.data == [] then Some(Failure(EndOfStream))
    else if |r.data| > MAX_PLAINTEXT then Some(Failure(LocalAlert(ALERT_RECORD_OVERFLOW)))
    else if !protected && r.kind == RECORD_APPLICATION_DATA then Some(Failure(LocalAlert(ALERT_UNEXPECTED_MESSAGE)))
    else if tls13 && r.kind != RECORD_HANDSHAKE && partial then Some(Failure(LocalAlert(ALERT_UNEXPECTED_MESSAGE)))
    else if r.kind == RECORD_ALERT then
      if |r.data| != 2 then Some(Failure(LocalAlert(ALERT_UNEXPECTED_MESSAGE)))
      else if r.data[1] == ALERT_CLOSE_NOTIFY then Some(Failure(EndOfStream))
      else if tls13 then
        if r.data[1] == ALERT_USER_CANCELED then None else Some(Failure(RemoteAlert(r.data[1])))
      else if r.data[0] == ALERT_LEVEL_WARNING then None
      else if r.data[0] == ALERT_LEVEL_ERROR then Some(Failure(RemoteAlert(r.data[1])))
      else Some(Failure(LocalAlert(ALERT_UNEXPECTED_MESSAGE)))
    else if r.kind == RECORD_CHANGE_CIPHER_SPEC then
      if |r.data| != 1 || r.data[0] != 1 then Some(Failure(LocalAlert(ALERT_DECODE_ERROR)))
      else if partial then Some(Failure(LocalAlert(ALERT_UNEXPECTED_MESSAGE)))
      else if tls13 then None
      else Some(Failure(LocalAlert(ALERT_UNEXPECTED_MESSAGE)))
    else if r.kind == RECORD_APPLICATION_DATA then Some(Application(r.data))
    else if r.kind == RECORD_HANDSHAKE then Some(Handshake(r.data))
    else Some(Failure(LocalAlert(ALERT_UNEXPECTED_MESSAGE)))
  }

  /** The first record that is not dropped, and the records after it. */
  function TakeRecord(records: seq<Record>, tls13: bool, protected: bool, partial: bool): (Step, seq<Record>) {
    if records == [] then (Failure(EndOfStream), [])
    else
      match Judge(records[0], tls13, protected, partial)
      case Some(step) => (step, records[1..])
      case None => TakeRecord(records[1..], tls13, protected, partial)
  }

  // ----- one message -----

  datatype Scan =
    | Incomplete
    | Rejected(error: ReadFailure)
    | Complete(message: Message, rest: Text)

  function Unmarshalled(data: Text): Result<Message, ReadFailure>
    requires data != []
  {
    if data[0] != TYPE_NEW_SESSION_TICKET && data[0] != TYPE_KEY_UPDATE then Err(LocalAlert(ALERT_UNEXPECTED_MESSAGE))
    else
      match Unmarshal(data)
      case None => Err(LocalAlert(ALERT_DECODE_ERROR))
      case Some(m) => Ok(m)
  }

  /** The first message in the reassembly buffer. */
  function NextMessage(hand: Text): Scan {
    if |hand| < 4 then Incomplete
    else
      var n := U24At(hand[1..]);
      if n > MAX_HANDSHAKE then Rejected(HandshakeTooLong(n))
      else if |hand| < 4 + n then Incomplete
      else
        match Unmarshalled(hand[..4 + n])
        case Err(e) => Rejected(e)
        case Ok(m) => Complete(m, hand[4 + n..])
  }

  /** More bytes behind the buffer do not change a message already decided. */
  lemma NextMessageDecided(hand: Text, more: Text)
    ensures var next := NextMessage(hand);
            && (next.Complete? ==> NextMessage(hand + more) == Complete(next.message, next.rest + more))
            && (next.Rejected? ==> NextMessage(hand + more) == next)
  {
    hide Unmarshalled;
    if !NextMessage(hand).Incomplete? {
      assert (hand + more)[1..] == hand[1..] + more;
      assert U24At(hand[1..] + more) == U24At(hand[1..]);
      var n := U24At(hand[1..]);
      if n <= MAX_HANDSHAKE {
        assert (hand + more)[..4 + n] == hand[..4 + n];
        assert (hand + more)[4 + n..] == hand[4 + n..] + more;
      }
    }
  }

  // ----- the whole stream -----

  /** Reading stops at application data, with the records behind it still to come, or for good. */
  datatype Ending = Data(data: Text, rest: seq<Record>) | Broken(error: ReadFailure)
  datatype Outcome = Outcome(dispatched: seq<Message>, ending: Ending)

  function Dispatching(m: Message, o: Outcome): Outcome {
    Outcome([m] + o.dispatched, o.ending)
  }

  /** What a TLS 1.3 reader does with the bytes in its reassembly buffer and the records behind them. */
  function Drive(hand: Text, records: seq<Record>, protected: bool): Outcome
    decreases |records|, |hand|
  {
    match NextMessage(hand)
    case Rejected(e) => Outcome([], Broken(e))
    case Complete(m, rest) => Dispatching(m, Drive(rest, records, protected))
    case Incomplete =>
      TakeRecordShrinks(records, true, protected, hand != []);
      var (step, rest) := TakeRecord(records, true, protected, hand != []);
      match step
      case Failure(e) => Outcome([], Broken(e))
      case Application(data) => Outcome([], Data(data, rest))
      case Handshake(data) => Drive(hand + data, rest, protected)
  }

  lemma {:induction false} TakeRecordShrinks(records: seq<Record>, tls13: bool, protected: bool, partial: bool)
    ensures var (step, rest) := TakeRecord(records, tls13, protected, partial);
            && (!step.Failure? ==> |rest| < |records|)
            && (step.Application? ==> step.data != [] && !(tls13 && partial))
            && (step.Handshake? ==> step.data != [])
  {
    if records != [] && Judge(records[0], tls13, protected, partial).None? {
      TakeRecordShrinks(records[1..], tls13, protected, partial);
    }
  }

  // ----- fragmentation -----

  function Flatten(fragments: seq<Text>): Text {
    if fragments == [] then [] else fragments[0] + Flatten(fragments[1..])
  }

  function HandshakeRecords(fragments: seq<Text>): seq<Record> {
    seq(|fragments|, i requires 0 <= i < |fragments| => Record(RECORD_HANDSHAKE, fragments[i]))
  }

  ghost predicate Sendable(fragments: seq<Text>) {
    forall i :: 0 <= i < |fragments| ==> 0 < |fragments[i]| <= MAX_PLAINTEXT
  }

  lemma FirstFragment(fragments: seq<Text>, tail: seq<Record>, protected: bool, partial: bool)
    requires Sendable(fragments) && fragments != []
    ensures TakeRecord(HandshakeRecords(fragments) + tail, true, protected, partial)
         == (Handshake(fragments[0]), HandshakeRecords(fragments[1..]) + tail)
  {
    var records := HandshakeRecords(fragments) + tail;
    assert records[0] == Record(RECORD_HANDSHAKE, fragments[0]);
    assert records[1..] == HandshakeRecords(fragments[1..]) + tail;
  }

  /**
   Cutting a handshake byte stream into records makes no difference: any cut into sendable
   fragments ends as if all the bytes had been in the reassembly buffer from the start,
   whether or not the stream is valid, and whatever records follow.
   */
  lemma {:induction false} FragmentationIsInvisible(hand: Text, fragments: seq<Text>, tail: seq<Record>,
      protected: bool)
    requires Sendable(fragments)
    ensures Drive(hand, HandshakeRecords(fragments) + tail, protected)
        == Drive(hand + Flatten(fragments), tail, protected)
    decreases |fragments|, |hand|
  {
    hide NextMessage, Judge;
    var stream, records := Flatten(fragments), HandshakeRecords(fragments) + tail;
    if !NextMessage(hand).Incomplete? {
      NextMessageDecided(hand, stream);
      if NextMessage(hand).Complete? {
        CompleteShrinks(hand);
        FragmentationIsInvisible(NextMessage(hand).rest, fragments, tail, protected);
      }
    } else if fragments == [] {
      assert records == tail && hand + stream == hand;
    } else {
      FirstFragment(fragments, tail, protected, hand != []);
      FragmentationIsInvisible(hand + fragments[0], fragments[1..], tail, protected);
      Associate(hand, fragments[0], Flatten(fragments[1..]));
    }
  }

  lemma CompleteShrinks(hand: Text)
    ensures NextMessage(hand).Complete? ==> |NextMessage(hand).rest| < |hand|
  {
  }

  /** Two cuts of the same bytes cannot be told apart. */
  lemma SameBytesSameOutcome(a: seq<Text>, b: seq<Text>, tail: seq<Record>, protected: bool)
    requires Sendable(a) && Sendable(b) && Flatten(a) == Flatten(b)
    ensures Drive([], HandshakeRecords(a) + tail, protected) == Drive([], HandshakeRecords(b) + tail, protected)
  {
    FragmentationIsInvisible([], a, tail, protected);
    FragmentationIsInvisible([], b, tail, protected);
  }

  function Encoded(messages: seq<Message>): Text
    requires forall m :: m in messages ==> Writable(m)
  {
    if messages == [] then [] else Marshal(messages[0]).value + Encoded(messages[1..])
  }

  /** A written message at the front of the buffer is accepted exactly when its body is within the limit. */
  lemma WrittenMessageComesFirst(m: Message, rest: Text)
    requires Writable(m)
    ensures NextMessage(Marshal(m).value + rest)
         == if |Body(m)| <= MAX_HANDSHAKE then Complete(m, rest) else Rejected(HandshakeTooLong(|Body(m)|))
  {
    RoundTrip(m);
    MarshalFrame(m, rest);
    hide Unmarshal, Body;
    var data := Marshal(m).value;
    assert (data + rest)[0] == data[0];
  }

  /**
   However a stream of acceptable messages is cut, exactly those messages are dispatched, in
   order, and reading goes on with the records behind them.
   */
  lemma {:induction false} MessagesAreDispatched(messages: seq<Message>, tail: seq<Record>, protected: bool)
    requires forall m :: m in messages ==> Writable(m) && |Body(m)| <= MAX_HANDSHAKE
    ensures Drive(Encoded(messages), tail, protected)
         == Outcome(messages + Drive([], tail, protected).dispatched, Drive([], tail, protected).ending)
  {
    hide NextMessage, Judge, Marshal, Body;
    if messages == [] {
      assert messages + Drive([], tail, protected).dispatched == Drive([], tail, protected).dispatched;
    } else {
      WrittenMessageComesFirst(messages[0], Encoded(messages[1..]));
      MessagesAreDispatched(messages[1..], tail, protected);
      assert [messages[0]] + (messages[1..] + Drive([], tail, protected).dispatched)
          == messages + Drive([], tail, protected).dispatched;
    }
  }

  lemma ReassemblyIsFaithful(messages: seq<Message>, fragments: seq<Text>, data: Text, more: seq<Record>)
    requires forall m :: m in messages ==> Writable(m) && |Body(m)| <= MAX_HANDSHAKE
    requires Sendable(fragments) && Flatten(fragments) == Encoded(messages)
    requires 0 < |data| <= MAX_PLAINTEXT
    ensures Drive([], HandshakeRecords(fragments) + ([Record(RECORD_APPLICATION_DATA, data)] + more), true)
         == Outcome(messages, Data(data, more))
  {
    hide NextMessage, Judge, Encoded;
    var tail := [Record(RECORD_APPLICATION_DATA, data)] + more;
    FragmentationIsInvisible([], fragments, tail, true);
    assert [] + Flatten(fragments) == Encoded(messages);
    MessagesAreDispatched(messages, tail, true);
    DataEndsTheRead(data, more);
    assert messages + [] == messages;
  }

  lemma DataEndsTheRead(data: Text, more: seq<Record>)
    requires 0 < |data| <= MAX_PLAINTEXT
    ensures Drive([], [Record(RECORD_APPLICATION_DATA, data)] + more, true) == Outcome([], Data(data, more))
  {
    var tail := [Record(RECORD_APPLICATION_DATA, data)] + more;
    assert tail[1..] == more && TakeRecord(tail, true, true, false) == (Application(data), more);
  }

  /** While a message is partial, any other record type is answered with an unexpected-message alert. */
  lemma PartialMessageIsNotInterrupted(hand: Text, r: Record, more: seq<Record>, protected: bool)
    requires hand != [] && NextMessage(hand).Incomplete?
    requires r.kind != RECORD_HANDSHAKE && 0 < |r.data| <= MAX_PLAINTEXT
    ensures Drive(hand, [r] + more, protected) == Outcome([], Broken(LocalAlert(ALERT_UNEXPECTED_MESSAGE)))
  {
    assert ([r] + more)[0] == r;
  }

  // ----- record by record -----

  /**
   What a first record does to a TLS 1.3 reader with no message under way: it ends the stream, is
   answered with an alert, is passed over, or brings its bytes. The numbers are those of sections
   5.1 and 6 of RFC 8446: 20 to 23 for the kinds of record, 0 for close_notify, 90 for user_canceled.
   */
  lemma FirstRecord(r: Record, more: seq<Record>, protected: bool)
    ensures var o, passedOver := Drive([], [r] + more, protected), Drive([], more, protected);
            var n := |r.data|;
            && (n == 0 ==> Ends(o, EndOfStream))
            && (n > 16384 ==> Ends(o, LocalAlert(22)))
            && (r.kind == 21 && n == 2 && r.data[1] == 0 ==> Ends(o, EndOfStream))
            && (r.kind == 21 && n == 2 && r.data[1] == 90 ==> o == passedOver)
            && (r.kind == 21 && n == 2 && r.data[1] !in [0, 90] ==> Ends(o, RemoteAlert(r.data[1])))
            && (r.kind == 20 && r.data == [1] ==> o == passedOver)
            && (r.kind == 20 && 0 < n <= 16384 && r.data != [1] ==> Ends(o, LocalAlert(50)))
            && (r.kind == 23 && 0 < n <= 16384 && protected ==> o == Outcome([], Data(r.data, more)))
            && (r.kind == 22 && 0 < n <= 16384 ==> o == Drive(r.data, more, protected))
            && (0 < n <= 16384 && Unexpected(r, protected) ==> Ends(o, LocalAlert(10)))
  {
    var records := [r] + more;
    assert records[0] == r && records[1..] == more;
    DriveFromEmpty(records, protected);
    DriveFromEmpty(more, protected);
    assert [] + r.data == r.data;
    hide Drive;
  }

  /** No record to come at any time: of no known kind, an alert of a wrong length, or data in the clear. */
  predicate Unexpected(r: Record, protected: bool) {
    r.kind !in [20, 21, 22, 23] || (r.kind == 21 && |r.data| != 2) || (r.kind == 23 && !protected)
  }

  predicate Ends(o: Outcome, error: ReadFailure) {
    o == Outcome([], Broken(error))
  }

  /** The same behind part of a message: only more handshake bytes are accepted. */
  lemma FirstRecordBehindPart(hand: Text, r: Record, more: seq<Record>, protected: bool)
    requires hand != [] && NextMessage(hand).Incomplete?
    ensures var o, n := Drive(hand, [r] + more, protected), |r.data|;
            && (n == 0 ==> Ends(o, EndOfStream))
            && (n > 16384 ==> Ends(o, LocalAlert(22)))
            && (0 < n <= 16384 && r.kind != 22 ==> Ends(o, LocalAlert(10)))
            && (0 < n <= 16384 && r.kind == 22 ==> o == Drive(hand + r.data, more, protected))
  {
    hide NextMessage;
    assert ([r] + more)[0] == r && ([r] + more)[1..] == more;
  }

  /**
   What a first record means before TLS 1.3, where the level of an alert, 1 for a warning and 2 for
   an error, matters, and change_cipher_spec is never expected.
   */
  lemma FirstRecordBefore13(r: Record, more: seq<Record>, protected: bool, partial: bool)
    ensures var taken, passedOver := TakeRecord([r] + more, false, protected, partial),
        TakeRecord(more, false, protected, partial);
            var n := |r.data|;
            && (n == 0 ==> taken == (Failure(EndOfStream), more))
            && (n > 16384 ==> taken == (Failure(LocalAlert(22)), more))
            && (r.kind == 21 && n == 2 && r.data[1] == 0 ==> taken == (Failure(EndOfStream), more))
            && (r.kind == 21 && n == 2 && r.data[1] != 0 && r.data[0] == 1 ==> taken == passedOver)
            && (r.kind == 21 && n == 2 && r.data[1] != 0 && r.data[0] == 2 ==>
                  taken == (Failure(RemoteAlert(r.data[1])), more))
            && (r.kind == 21 && n == 2 && r.data[1] != 0 && r.data[0] !in [1, 2] ==>
                  taken == (Failure(LocalAlert(10)), more))
            && (r.kind == 20 && r.data == [1] ==> taken == (Failure(LocalAlert(10)), more))
            && (r.kind == 20 && 0 < n <= 16384 && r.data != [1] ==> taken == (Failure(LocalAlert(50)), more))
            && (r.kind == 23 && 0 < n <= 16384 && protected ==> taken == (Application(r.data), more))
            && (r.kind == 22 && 0 < n <= 16384 ==> taken == (Handshake(r.data), more))
            && (0 < n <= 16384 && Unexpected(r, protected) ==> taken == (Failure(LocalAlert(10)), more))
  {
    assert ([r] + more)[0] == r && ([r] + more)[1..] == more;
  }

  /** Without a record there is nothing but the end of the stream. */
  lemma NoRecord(hand: Text, protected: bool)
    requires NextMessage(hand).Incomplete?
    ensures Ends(Drive(hand, [], protected), EndOfStream)
  {
  }

  /**
   What the front of the reassembly buffer says: it is waited for until the length it states is
   there, a length above the limit, an unknown type or a malformed body is refused, and what is
   behind a message stays.
   */
  lemma FirstMessage(hand: Text)
    ensures var next := NextMessage(hand);
            && (|hand| < 4 ==> next == Incomplete)
            && (|hand| >= 4 ==>
                  var n: nat := hand[1] as int * 0x1_0000 + hand[2] as int * 0x100 + hand[3];
                  && (n > 65536 <==> next == Rejected(HandshakeTooLong(n)))
                  && (n <= 65536 ==>
                        && (|hand| < 4 + n <==> next == Incomplete)
                        && (|hand| >= 4 + n ==>
                              && (hand[0] !in [4, 24] ==> next == Rejected(LocalAlert(10)))
                              && (hand[0] in [4, 24] ==>
                                    match Unmarshal(hand[..4 + n])
                                    case None => next == Rejected(LocalAlert(50))
                                    case Some(m) => next == Complete(m, hand[4 + n..])))))
  {
    hide Unmarshal;
  }

  /** An orderly close reads as the end of the stream, now and ever after. */
  lemma OrderlyClose(level: byte, more: seq<Record>, size: nat, protected: bool)
    requires size > 0
    ensures var reply := ReadOnce(Reader([Record(21, [level, 0])] + more, [], None), size, protected);
            && reply.result == Err(EndOfStream) && reply.dispatched == []
            && ReadOnce(reply.after, size, protected).result == Err(EndOfStream)
  {
    FirstRecord(Record(21, [level, 0]), more, protected);
    hide Drive;
  }

  // ----- one message at a time -----

  /** `n` bytes are needed before the message at the front of the buffer can be decided. */
  ghost predicate Awaits(hand: Text, n: nat) {
    n == 4 || (|hand| >= 4 && U24At(hand[1..]) <= MAX_HANDSHAKE && n == 4 + U24At(hand[1..]))
  }

  lemma AwaitingIsIncomplete(hand: Text, n: nat)
    requires Awaits(hand, n) && |hand| < n
    ensures NextMessage(hand).Incomplete?
  {
  }

  lemma AwaitsLonger(hand: Text, more: Text, n: nat)
    requires Awaits(hand, n)
    ensures Awaits(hand + more, n)
  {
    if n != 4 {
      assert (hand + more)[1..] == hand[1..] + more;
      assert U24At(hand[1..] + more) == U24At(hand[1..]);
    }
  }

  /** A buffer holding a whole frame, or the head of one that is too long, settles what happens next. */
  lemma DriveDecided(hand: Text, records: seq<Record>, protected: bool)
    requires |hand| >= 4
    ensures var n := U24At(hand[1..]);
            && (n > MAX_HANDSHAKE ==> Drive(hand, records, protected) == Outcome([], Broken(HandshakeTooLong(n))))
            && (n <= MAX_HANDSHAKE && |hand| >= 4 + n ==>
                Drive(hand, records, protected) ==
                  match Unmarshalled(hand[..4 + n])
                  case Err(e) => Outcome([], Broken(e))
                  case Ok(m) => Dispatching(m, Drive(hand[4 + n..], records, protected)))
  {
  }

  /** With an empty buffer the next record decides. */
  lemma DriveFromEmpty(records: seq<Record>, protected: bool)
    ensures Drive([], records, protected) ==
              match TakeRecord(records, true, protected, false)
              case (Failure(e), _) => Outcome([], Broken(e))
              case (Application(data), rest) => Outcome([], Data(data, rest))
              case (Handshake(data), rest) => Drive([] + data, rest, protected)
  {
    hide Judge;
    assert NextMessage([]).Incomplete?;
    var (step, rest) := TakeRecord(records, true, protected, false);
    if step.Handshake? {
      TakeRecordShrinks(records, true, protected, false);
    }
  }

  function Front(data: Text, size: nat): (s: Text)
    ensures s <= data
  {
    if size < |data| then data[..size] else data
  }

  /** What is still to come: the data at hand, or else what the buffer and the records bring. */
  ghost function Onward(hand: Text, records: seq<Record>, input: Text, protected: bool): Outcome {
    if input == [] then Drive(hand, records, protected) else Outcome([], Data(input, records))
  }

  /** Having dispatched `now`, of which `before` is old, what is left to happen is `rest` of `all`. */
  ghost predicate Resumes(now: seq<Message>, before: seq<Message>, rest: Outcome, all: Outcome) {
    now + rest.dispatched == before + all.dispatched && rest.ending == all.ending
  }

  /** Before TLS 1.3: what the one next record does to the buffers, and the failure it means. */
  ghost predicate OneRecordDecides(
    step: Step, before: Text, hand: Text, input: Text, inError: Option<ReadFailure>, failure: Option<ReadFailure>)
  {
    match step
    case Failure(e) => failure == Some(e) && inError == Some(e) && hand == before && input == []
    case Handshake(data) => failure == Some(NoRenegotiation) && inError == None && hand == before + data && input == []
    case Application(data) =>
      inError == None && hand == before && input == data
          && failure == if before != [] then Some(NoRenegotiation) else None
  }

  /** The same for a whole read, which hands out the front of the data if nothing failed. */
  ghost predicate OneRecordRead(
    step: Step, size: nat, before: Text,
    hand: Text, input: Text, inError: Option<ReadFailure>, r: Result<Text, ReadFailure>)
  {
    match step
    case Failure(e) => r == Err(e) && inError == Some(e) && hand == before && input == []
    case Handshake(data) => r == Err(NoRenegotiation) && inError == None && hand == before + data && input == []
    case Application(data) =>
      && inError == None && hand == before
      && if before != [] then r == Err(NoRenegotiation) && input == data
         else r == Ok(Front(data, size)) && input == data[|Front(data, size)|..]
  }

  // ----- any number of reads, over a whole stream -----

  /** A TLS 1.3 connection between two reads. */
  datatype Reader = Reader(records: seq<Record>, input: Text, failed: Option<ReadFailure>)

  datatype Reply = Reply(result: Result<Text, ReadFailure>, dispatched: seq<Message>, after: Reader)

  function ReadOnce(r: Reader, size: nat, protected: bool): Reply {
    if size == 0 then Reply(Ok([]), [], r)
    else if r.input != [] then Reply(Ok(Front(r.input, size)), [], r.(input := r.input[|Front(r.input, size)|..]))
    else if r.failed.Some? then Reply(Err(r.failed.value), [], r)
    else
      var o := Drive([], r.records, protected);
      match o.ending
      case Broken(e) => Reply(Err(e), o.dispatched, Reader([], [], Some(e)))
      case Data(data, rest) =>
        Reply(Ok(Front(data, size)), o.dispatched, Reader(rest, data[|Front(data, size)|..], None))
  }

  /** What a connection brings, in order: bytes for the caller and messages for the connection itself. */
  datatype Happening = Byte(value: byte) | Dispatched(message: Message)

  /** All that is ever to come, and the failure it ends in. */
  datatype Story = Story(happenings: seq<Happening>, error: ReadFailure)

  function BytesOf(data: Text): seq<Happening> {
    seq(|data|, i requires 0 <= i < |data| => Byte(data[i]))
  }

  function Dispatches(messages: seq<Message>): seq<Happening> {
    seq(|messages|, i requires 0 <= i < |messages| => Dispatched(messages[i]))
  }

  function First(happenings: seq<Happening>, story: Story): Story {
    Story(happenings + story.happenings, story.error)
  }

  lemma {:induction false} DriveShrinks(hand: Text, records: seq<Record>, protected: bool)
    ensures var o := Drive(hand, records, protected);
            o.ending.Data? ==> |o.ending.rest| < |records| && o.ending.data != []
    decreases |records|, |hand|
  {
    hide NextMessage, Judge;
    match NextMessage(hand) {
      case Rejected(_) =>
      case Complete(_, rest) =>
        CompleteShrinks(hand);
        DriveShrinks(rest, records, protected);
      case Incomplete =>
        TakeRecordShrinks(records, true, protected, hand != []);
        var (step, rest) := TakeRecord(records, true, protected, hand != []);
        if step.Handshake? {
          DriveShrinks(hand + step.data, rest, protected);
        }
    }
  }

  function Whole(hand: Text, records: seq<Record>, protected: bool): Story
    decreases |records|
  {
    var o := Drive(hand, records, protected);
    DriveShrinks(hand, records, protected);
    match o.ending
    case Broken(e) => Story(Dispatches(o.dispatched), e)
    case Data(data, rest) => First(Dispatches(o.dispatched) + BytesOf(data), Whole([], rest, protected))
  }

  /** What reads of this connection will still bring. */
  function ToCome(r: Reader, protected: bool): Story {
    First(BytesOf(r.input), if r.failed.Some? then Story([], r.failed.value) else Whole([], r.records, protected))
  }

  function TextOf(r: Result<Text, ReadFailure>): Text {
    if r.Ok? then r.value else []
  }

  /** What one read brings: the messages before its data, then the data. */
  function Brought(reply: Reply): seq<Happening> {
    Dispatches(reply.dispatched) + BytesOf(TextOf(reply.result))
  }

  lemma FrontSplits(data: Text, size: nat)
    ensures BytesOf(data) == BytesOf(Front(data, size)) + BytesOf(data[|Front(data, size)|..])
    ensures size > 0 && data != [] ==> Front(data, size) != []
  {
  }

  /** A read brings the beginning of what is to come and leaves the rest; it fails exactly at the end. */
  lemma ReadTells(r: Reader, size: nat, protected: bool)
    ensures var reply := ReadOnce(r, size, protected);
            && ToCome(r, protected) == First(Brought(reply), ToCome(reply.after, protected))
            && (reply.result.Err? ==> ToCome(reply.after, protected) == Story([], reply.result.error))
            && (reply.result.Ok? && size > 0 ==> reply.result.value != [])
  {
    hide Drive, Whole, Front, BytesOf;
    var reply := ReadOnce(r, size, protected);
    NothingHappens(ToCome(r, protected));
    if r.input != [] {
      FrontSplits(r.input, size);
      Associate(Brought(reply), BytesOf(reply.after.input), Whole([], r.records, protected).happenings);
      Associate(Brought(reply), BytesOf(reply.after.input), []);
    } else if size > 0 && r.failed == None {
      DriveShrinks([], r.records, protected);
      WholeUnfolds([], r.records, protected);
      var o := Drive([], r.records, protected);
      if o.ending.Data? {
        var data, rest := o.ending.data, Whole([], o.ending.rest, protected).happenings;
        FrontSplits(data, size);
        var front, back := BytesOf(Front(data, size)), BytesOf(data[|Front(data, size)|..]);
        Associate(Dispatches(o.dispatched), front, back);
        Associate(Dispatches(o.dispatched) + front, back, rest);
      }
    }
  }

  lemma NothingHappens(story: Story)
    ensures Dispatches([]) == [] && BytesOf([]) == [] && First([], story) == story
    ensures forall data :: Dispatches([]) + BytesOf(data) == BytesOf(data)
    ensures forall messages :: Dispatches(messages) + BytesOf([]) == Dispatches(messages)
  {
  }

  lemma WholeUnfolds(hand: Text, records: seq<Record>, protected: bool)
    ensures var o := Drive(hand, records, protected);
            Whole(hand, records, protected) ==
              match o.ending
              case Broken(e) => Story(Dispatches(o.dispatched), e)
              case Data(data, rest) => First(Dispatches(o.dispatched) + BytesOf(data), Whole([], rest, protected))
  {
  }

  /** The connection after reads of these sizes. */
  function AfterReads(r: Reader, sizes: seq<nat>, protected: bool): Reader
    decreases sizes
  {
    if sizes == [] then r else AfterReads(ReadOnce(r, sizes[0], protected).after, sizes[1..], protected)
  }

  /** Everything these reads bring. */
  function BroughtByAll(r: Reader, sizes: seq<nat>, protected: bool): seq<Happening>
    decreases sizes
  {
    if sizes == [] then []
    else
      var reply := ReadOnce(r, sizes[0], protected);
      Brought(reply) + BroughtByAll(reply.after, sizes[1..], protected)
  }

  /** Whatever sizes are asked for, reads bring a beginning of the story, in order, and leave the rest of it. */
  lemma {:induction false} ReadsTellTheStory(r: Reader, sizes: seq<nat>, protected: bool)
    ensures ToCome(r, protected) == First(BroughtByAll(r, sizes, protected),
        ToCome(AfterReads(r, sizes, protected), protected))
    decreases sizes
  {
    hide ReadOnce, ToCome, Brought;
    if sizes != [] {
      var reply := ReadOnce(r, sizes[0], protected);
      ReadTells(r, sizes[0], protected);
      ReadsTellTheStory(reply.after, sizes[1..], protected);
      Associate(
        Brought(reply),
        BroughtByAll(reply.after, sizes[1..], protected),
        ToCome(AfterReads(r, sizes, protected), protected).happenings);
    } else {
      assert [] + ToCome(r, protected).happenings == ToCome(r, protected).happenings;
    }
  }

  function CountBytes(happenings: seq<Happening>): nat {
    if happenings == [] then 0
    else CountBytes(happenings[..|happenings| - 1]) + if happenings[|happenings| - 1].Byte? then 1 else 0
  }

  lemma {:induction false} CountAppend(a: seq<Happening>, b: seq<Happening>)
    ensures CountBytes(a + b) == CountBytes(a) + CountBytes(b)
  {
    if b == [] {
      assert a + b == a;
    } else {
      assert (a + b)[..|a + b| - 1] == a + b[..|b| - 1];
      CountAppend(a, b[..|b| - 1]);
    }
  }

  lemma {:induction false} CountOfBytes(data: Text)
    ensures CountBytes(BytesOf(data)) == |data|
  {
    if data != [] {
      assert BytesOf(data)[..|data| - 1] == BytesOf(data[..|data| - 1]);
      CountOfBytes(data[..|data| - 1]);
    }
  }

  /** More reads than there are bytes, none of size zero. */
  predicate Enough(sizes: seq<nat>, r: Reader, protected: bool) {
    && (forall i :: 0 <= i < |sizes| ==> sizes[i] > 0)
    && |sizes| > CountBytes(ToCome(r, protected).happenings)
  }

  /** Enough reads bring the whole story and end in its failure. */
  lemma {:induction false} EnoughReadsTellAll(r: Reader, sizes: seq<nat>, protected: bool)
    requires Enough(sizes, r, protected)
    ensures BroughtByAll(r, sizes, protected) == ToCome(r, protected).happenings
    ensures var last := AfterReads(r, sizes, protected);
            ToCome(last, protected) == Story([], ToCome(r, protected).error)
    decreases sizes
  {
    hide ReadOnce, ToCome;
    var reply := ReadOnce(r, sizes[0], protected);
    ReadTells(r, sizes[0], protected);
    var next := ToCome(reply.after, protected);
    CountAppend(Brought(reply), next.happenings);
    CountAppend(Dispatches(reply.dispatched), BytesOf(TextOf(reply.result)));
    CountOfBytes(TextOf(reply.result));
    if reply.result.Ok? {
      EnoughReadsTellAll(reply.after, sizes[1..], protected);
    } else {
      ReadsTellTheStory(reply.after, sizes[1..], protected);
      var tail := BroughtByAll(reply.after, sizes[1..], protected);
      assert |tail + ToCome(AfterReads(reply.after, sizes[1..], protected), protected).happenings| == 0;
      assert tail == [];
    }
  }

  // ----- the cut of a whole stream -----

  /**
   A stretch of a stream: handshake bytes cut into records, application data cut into records, or
   a single record of whatever kind.
   */
  datatype Stretch =
    | HandshakeCut(fragments: seq<Text>)
    | DataCut(fragments: seq<Text>)
    | Single(record: Record)

  function DataRecords(fragments: seq<Text>): seq<Record> {
    seq(|fragments|, i requires 0 <= i < |fragments| => Record(RECORD_APPLICATION_DATA, fragments[i]))
  }

  function RecordsOf(stream: seq<Stretch>): seq<Record> {
    if stream == [] then []
    else
      (match stream[0]
       case HandshakeCut(f) => HandshakeRecords(f)
       case DataCut(f) => DataRecords(f)
       case Single(r) => [r])
      + RecordsOf(stream[1..])
  }

  /** The same bytes, cut in two ways into records that can be sent. */
  ghost predicate SameBytes(a: seq<Text>, b: seq<Text>) {
    Sendable(a) && Sendable(b) && Flatten(a) == Flatten(b)
  }

  ghost predicate SameStretch(a: Stretch, b: Stretch) {
    match a
    case HandshakeCut(f) => b.HandshakeCut? && SameBytes(f, b.fragments)
    case DataCut(f) => b.DataCut? && SameBytes(f, b.fragments)
    case Single(r) => b == a
  }

  ghost predicate SameStream(a: seq<Stretch>, b: seq<Stretch>) {
    |a| == |b| && forall i :: 0 <= i < |a| ==> SameStretch(a[i], b[i])
  }

  /** What application data does behind a buffer: its messages first, and then the data, unless one is partial. */
  function DataBehind(hand: Text, data: Text, after: Story, protected: bool): Story
    decreases |hand|
  {
    match NextMessage(hand)
    case Rejected(e) => Story([], e)
    case Complete(m, rest) =>
      CompleteShrinks(hand);
      First([Dispatched(m)], DataBehind(rest, data, after, protected))
    case Incomplete =>
      if protected && hand == [] then First(BytesOf(data), after) else Story([], LocalAlert(ALERT_UNEXPECTED_MESSAGE))
  }

  lemma DispatchFirst(m: Message, rest: seq<Message>)
    ensures Dispatches([m] + rest) == [Dispatched(m)] + Dispatches(rest)
  {
  }

  /** A whole message in the buffer comes first in the story. */
  lemma WholeDispatches(hand: Text, records: seq<Record>, protected: bool)
    ensures var next := NextMessage(hand);
            next.Complete? ==>
              Whole(hand, records, protected)
              == First([Dispatched(next.message)], Whole(next.rest, records, protected))
  {
    var next := NextMessage(hand);
    hide NextMessage;
    if next.Complete? {
      var o := Drive(next.rest, records, protected);
      assert Drive(hand, records, protected) == Dispatching(next.message, o);
      hide Drive;
      WholeUnfolds(hand, records, protected);
      WholeUnfolds(next.rest, records, protected);
      hide Whole;
      DispatchFirst(next.message, o.dispatched);
      if o.ending.Data? {
        var after := Whole([], o.ending.rest, protected).happenings;
        var bytes := BytesOf(o.ending.data);
        var first, later := [Dispatched(next.message)], Dispatches(o.dispatched);
        assert (first + later) + bytes + after == first + (later + bytes + after);
      }
    }
  }

  lemma {:induction false} WholeOfData(hand: Text, fragments: seq<Text>, tail: seq<Record>, protected: bool)
    requires Sendable(fragments) && fragments != []
    ensures Whole(hand, DataRecords(fragments) + tail, protected)
         == DataBehind(hand, Flatten(fragments), Whole([], tail, protected), protected)
    decreases |fragments|, |hand|
  {
    hide Judge;
    var records := DataRecords(fragments) + tail;
    var next := NextMessage(hand);
    if next.Complete? {
      CompleteShrinks(hand);
      hide NextMessage, Drive;
      WholeDispatches(hand, records, protected);
      WholeOfData(next.rest, fragments, tail, protected);
    } else if next.Rejected? {
      assert Dispatches([]) == [];
    } else {
      FirstData(fragments, tail, protected, hand != []);
      hide NextMessage;
      assert Dispatches([]) == [];
      WholeUnfolds(hand, records, protected);
      hide Whole;
      if protected && hand == [] {
        var rest := DataRecords(fragments[1..]) + tail;
        assert Drive(hand, records, protected) == Outcome([], Data(fragments[0], rest));
        hide Drive;
        BytesSplit(fragments[0], Flatten(fragments[1..]));
        assert [] + BytesOf(fragments[0]) == BytesOf(fragments[0]);
        if |fragments| == 1 {
          assert fragments[1..] == [] && rest == tail && Flatten(fragments) == fragments[0] + [] == fragments[0];
        } else {
          WholeOfData([], fragments[1..], tail, protected);
          DataBehindNothing(Flatten(fragments[1..]), Whole([], tail, protected), protected);
          Associate(BytesOf(fragments[0]), BytesOf(Flatten(fragments[1..])), Whole([], tail, protected).happenings);
        }
      }
    }
  }

  lemma DataBehindNothing(data: Text, after: Story, protected: bool)
    requires protected
    ensures DataBehind([], data, after, protected) == First(BytesOf(data), after)
  {
  }

  lemma BytesSplit(a: Text, b: Text)
    ensures BytesOf(a + b) == BytesOf(a) + BytesOf(b)
  {
  }

  lemma FirstData(fragments: seq<Text>, tail: seq<Record>, protected: bool, partial: bool)
    requires Sendable(fragments) && fragments != []
    ensures TakeRecord(DataRecords(fragments) + tail, true, protected, partial)
         == (if protected && !partial then Application(fragments[0]) else Failure(LocalAlert(ALERT_UNEXPECTED_MESSAGE)),
             DataRecords(fragments[1..]) + tail)
  {
    var records := DataRecords(fragments) + tail;
    assert records[0] == Record(RECORD_APPLICATION_DATA, fragments[0]);
    assert records[1..] == DataRecords(fragments[1..]) + tail;
  }

  lemma {:induction false} NonemptyBytes(fragments: seq<Text>)
    requires Sendable(fragments)
    ensures Flatten(fragments) == [] <==> fragments == []
  {
  }

  /** A single record in front does to two streams alike what it does. */
  lemma {:induction false} SameAfterRecord(hand: Text, r: Record, a: seq<Record>, b: seq<Record>, protected: bool)
    requires forall h :: Whole(h, a, protected) == Whole(h, b, protected)
    ensures Whole(hand, [r] + a, protected) == Whole(hand, [r] + b, protected)
    decreases |hand|
  {
    var next := NextMessage(hand);
    hide Judge, NextMessage;
    if next.Complete? {
      CompleteShrinks(hand);
      WholeDispatches(hand, [r] + a, protected);
      WholeDispatches(hand, [r] + b, protected);
      SameAfterRecord(next.rest, r, a, b, protected);
    } else if next.Incomplete? {
      RecordFirst(hand, r, a, protected);
      RecordFirst(hand, r, b, protected);
    } else {
      WholeUnfolds(hand, [r] + a, protected);
      WholeUnfolds(hand, [r] + b, protected);
    }
  }

  /** How the story goes on after one record that is not dropped. */
  function AfterRecord(step: Step, hand: Text, rest: seq<Record>, protected: bool): Story {
    match step
    case Failure(e) => Story([], e)
    case Application(data) => First(BytesOf(data), Whole([], rest, protected))
    case Handshake(data) => Whole(hand + data, rest, protected)
  }

  lemma RecordFirst(hand: Text, r: Record, rest: seq<Record>, protected: bool)
    requires NextMessage(hand).Incomplete?
    ensures var judged := Judge(r, true, protected, hand != []);
            Whole(hand, [r] + rest, protected)
              == (if judged.None? then Whole(hand, rest, protected)
                  else AfterRecord(judged.value, hand, rest, protected))
  {
    hide NextMessage, Judge;
    var records := [r] + rest;
    assert records[0] == r && records[1..] == rest;
    WholeUnfolds(hand, records, protected);
    assert Dispatches([]) == [];
    var judged := Judge(r, true, protected, hand != []);
    if judged.None? {
      assert Drive(hand, records, protected) == Drive(hand, rest, protected);
      WholeUnfolds(hand, rest, protected);
    } else if judged.value.Handshake? {
      assert Drive(hand, records, protected) == Drive(hand + judged.value.data, rest, protected);
      WholeUnfolds(hand + judged.value.data, rest, protected);
    } else if judged.value.Application? {
      assert Dispatches([]) + BytesOf(judged.value.data) == BytesOf(judged.value.data);
    }
  }

  lemma WholeOfHandshake(hand: Text, fragments: seq<Text>, tail: seq<Record>, protected: bool)
    requires Sendable(fragments)
    ensures Whole(hand, HandshakeRecords(fragments) + tail, protected)
        == Whole(hand + Flatten(fragments), tail, protected)
  {
    FragmentationIsInvisible(hand, fragments, tail, protected);
    hide Drive;
    WholeUnfolds(hand, HandshakeRecords(fragments) + tail, protected);
    WholeUnfolds(hand + Flatten(fragments), tail, protected);
  }

  /**
   However the handshake bytes and the application data of a stream are cut into records, with
   any other records between, the bytes and messages a reader gets are the same, in the same order,
   and so is the failure it ends in.
   */
  lemma {:induction false} CutIsInvisible(a: seq<Stretch>, b: seq<Stretch>, hand: Text, protected: bool)
    requires SameStream(a, b)
    ensures Whole(hand, RecordsOf(a), protected) == Whole(hand, RecordsOf(b), protected)
    decreases |a|
  {
    hide Whole, Flatten, Sendable;
    if a != [] {
      var x, y := RecordsOf(a[1..]), RecordsOf(b[1..]);
      assert SameStretch(a[0], b[0]);
      assert SameStream(a[1..], b[1..]);
      match a[0] {
        case HandshakeCut(f) =>
          WholeOfHandshake(hand, f, x, protected);
          WholeOfHandshake(hand, b[0].fragments, y, protected);
          CutIsInvisible(a[1..], b[1..], hand + Flatten(f), protected);
        case DataCut(f) =>
          NonemptyBytes(f);
          NonemptyBytes(b[0].fragments);
          if f == [] {
            assert DataRecords(f) + x == x && DataRecords(b[0].fragments) + y == y;
            CutIsInvisible(a[1..], b[1..], hand, protected);
          } else {
            WholeOfData(hand, f, x, protected);
            WholeOfData(hand, b[0].fragments, y, protected);
            CutIsInvisible(a[1..], b[1..], [], protected);
          }
        case Single(r) =>
          forall h ensures Whole(h, x, protected) == Whole(h, y, protected) {
            CutIsInvisible(a[1..], b[1..], h, protected);
          }
          SameAfterRecord(hand, r, x, y, protected);
      }
    }
  }

  /**
   Two connections that get the same stream in different cuts, read with any sizes: enough reads
   bring both exactly the same bytes and messages, and any reads bring one a beginning of the other's.
   */
  lemma ReadersCannotTellCuts(a: seq<Stretch>, b: seq<Stretch>, sizesA: seq<nat>, sizesB: seq<nat>, protected: bool)
    requires SameStream(a, b)
    ensures var ra, rb := Reader(RecordsOf(a), [], None), Reader(RecordsOf(b), [], None);
            var x, y := BroughtByAll(ra, sizesA, protected), BroughtByAll(rb, sizesB, protected);
            && ToCome(ra, protected) == ToCome(rb, protected)
            && x <= ToCome(ra, protected).happenings && y <= ToCome(ra, protected).happenings
            && (x <= y || y <= x)
            && (Enough(sizesA, ra, protected) ==> x == ToCome(ra, protected).happenings && y <= x)
  {
    hide CountBytes, BroughtByAll, AfterReads, RecordsOf;
    var ra, rb := Reader(RecordsOf(a), [], None), Reader(RecordsOf(b), [], None);
    CutIsInvisible(a, b, [], protected);
    assert ToCome(ra, protected) == ToCome(rb, protected);
    hide ToCome;
    ReadsTellTheStory(ra, sizesA, protected);
    ReadsTellTheStory(rb, sizesB, protected);
    var story := ToCome(ra, protected).happenings;
    Beginnings(
      BroughtByAll(ra, sizesA, protected), BroughtByAll(rb, sizesB, protected), story,
      ToCome(AfterReads(ra, sizesA, protected), protected).happenings,
      ToCome(AfterReads(rb, sizesB, protected), protected).happenings);
    if Enough(sizesA, ra, protected) {
      EnoughReadsTellAll(ra, sizesA, protected);
    }
  }

  lemma Beginnings<T>(x: seq<T>, y: seq<T>, whole: seq<T>, afterX: seq<T>, afterY: seq<T>)
    requires whole == x + afterX && whole == y + afterY
    ensures x <= whole && y <= whole && (x <= y || y <= x)
  {
    assert whole[..|x|] == x && whole[..|y|] == y;
    if |x| <= |y| {
      assert y[..|x|] == x;
    } else {
      assert x[..|y|] == y;
    }
  }

  // ----- the connection -----

  /** `records` is what the kernel still has to deliver; `dispatched` logs the messages handled. */
  class Conn {
    const tls13: bool
    const protected: bool
    var records: seq<Record>
    var hand: Text
    var input: Text
    var inError: Option<ReadFailure>
    var dispatched: seq<Message>

    /** Between reads of a TLS 1.3 connection nothing is left half reassembled, unless it failed. */
    ghost predicate Settled()
      reads this
    {
      tls13 && inError == None ==> hand == []
    }

    constructor (tls13: bool, protected: bool, records: seq<Record>)
      ensures Settled() && hand == [] && input == [] && inError == None && dispatched == []
      ensures this.tls13 == tls13 && this.protected == protected && this.records == records
    {
      this.tls13, this.protected, this.records := tls13, protected, records;
      hand, input, inError, dispatched := [], [], None, [];
    }

    /** Reads one record, dropping the ones that change nothing; failures are sticky. */
    method ReadRecord() returns (failure: Option<ReadFailure>)
      requires inError == None && input == []
      modifies this`records, this`hand, this`input, this`inError
      ensures inError == failure
      ensures match TakeRecord(old(records), tls13, protected, old(hand) != [])
              case (Failure(e), rest) => failure == Some(e) && hand == old(hand) && input == [] && records == rest
              case (Application(data), rest) => failure == None && hand == old(hand) && input == data && records == rest
              case (Handshake(data), rest) =>
                failure == None && hand == old(hand) + data && input == [] && records == rest
      decreases |records|
    {
      if records == [] {
        inError := Some(EndOfStream);
        return inError;
      }
      var step := Judge(records[0], tls13, protected, hand != []);
      records := records[1..];
      if step.None? {
        failure := ReadRecord();
        return failure;
      }
      match step.value {
        case Failure(e) => inError := Some(e);
        case Application(data) => input := data;
        case Handshake(data) => hand := hand + data;
      }
      return inError;
    }

    /** Reads until `n` bytes are buffered; only handshake records can follow, since a message is under way. */
    method ReadHandshakeBytes(n: nat) returns (failure: Option<ReadFailure>)
      requires tls13 && inError == None && input == [] && hand != [] && Awaits(hand, n)
      modifies this`records, this`hand, this`input, this`inError
      ensures inError == failure && input == []
      ensures failure == None ==>
                && |hand| >= n && hand != [] && Awaits(hand, n) && (|old(hand)| >= n ==> hand == old(hand))
                && |records| <= |old(records)| && (|records| == |old(records)| ==> hand == old(hand))
                && Drive(hand, records, protected) == Drive(old(hand), old(records), protected)
      ensures failure.Some? ==> Drive(old(hand), old(records), protected) == Outcome([], Broken(failure.value))
    {
      hide NextMessage, Awaits, Judge, Drive;
      while |hand| < n
        invariant hand != [] && input == [] && inError == None && Awaits(hand, n)
        invariant |old(hand)| >= n ==> hand == old(hand)
        invariant |records| <= |old(records)| && (|records| == |old(records)| ==> hand == old(hand))
        invariant Drive(hand, records, protected) == Drive(old(hand), old(records), protected)
        decreases |records|
      {
        AwaitingIsIncomplete(hand, n);
        failure := ReadHandshakeRecord(n);
        if failure.Some? {
          return failure;
        }
      }
      return None;
    }

    /** One record while a message is under way. */
    method ReadHandshakeRecord(ghost n: nat) returns (failure: Option<ReadFailure>)
      requires tls13 && inError == None && input == [] && hand != [] && Awaits(hand, n)
      requires NextMessage(hand).Incomplete?
      modifies this`records, this`hand, this`input, this`inError
      ensures inError == failure && input == []
      ensures failure == None ==>
                && hand != [] && Awaits(hand, n) && |records| < |old(records)|
                && Drive(hand, records, protected) == Drive(old(hand), old(records), protected)
      ensures failure.Some? ==> Drive(old(hand), old(records), protected) == Outcome([], Broken(failure.value))
    {
      hide NextMessage, Awaits, Judge;
      TakeRecordShrinks(records, tls13, protected, true);
      failure := ReadRecord();
      var more := hand[|old(hand)|..];
      assert hand == old(hand) + more;
      AwaitsLonger(old(hand), more, n);
    }

    /** The next whole message. */
    method ReadHandshake() returns (r: Result<Message, ReadFailure>)
      requires tls13 && inError == None && input == [] && hand != []
      modifies this`records, this`hand, this`input, this`inError
      ensures input == []
      ensures r.Err? ==>
                && inError == Some(r.error)
                && Drive(old(hand), old(records), protected) == Outcome([], Broken(r.error))
      ensures r.Ok? ==>
                && inError == None && |records| <= |old(records)|
                && (|records| == |old(records)| ==> |hand| < |old(hand)|)
                && Drive(old(hand), old(records), protected) == Dispatching(r.value, Drive(hand, records, protected))
    {
      hide Unmarshalled, NextMessage, Drive, U24At;
      var failure := ReadHandshakeBytes(4);
      if failure.Some? {
        return Err(failure.value);
      }
      DriveDecided(hand, records, protected);
      var n := U24At(hand[1..]);
      if n > MAX_HANDSHAKE {
        inError := Some(HandshakeTooLong(n));
        return Err(HandshakeTooLong(n));
      }
      failure := ReadHandshakeBytes(4 + n);
      if failure.Some? {
        return Err(failure.value);
      }
      DriveDecided(hand, records, protected);
      assert U24At(hand[1..]) == n;
      r := Unmarshalled(hand[..4 + n]);
      if r.Err? {
        inError := Some(r.error);
      }
      hand := hand[4 + n..];
    }

    /** Handles one message; before TLS 1.3 any handshake byte is refused, and stays buffered. */
    method HandlePostHandshakeMessage() returns (failure: Option<ReadFailure>)
      requires inError == None && hand != [] && (tls13 ==> input == [])
      modifies this`records, this`hand, this`input, this`inError, this`dispatched
      ensures input == old(input)
      ensures !tls13 ==>
                && failure == Some(NoRenegotiation) && dispatched == old(dispatched) && inError == None
                && hand == old(hand) && records == old(records)
      ensures tls13 ==> inError == failure
      ensures tls13 && failure.Some? ==>
                && dispatched == old(dispatched)
                && Drive(old(hand), old(records), protected) == Outcome([], Broken(failure.value))
      ensures tls13 && failure == None ==>
                && |records| <= |old(records)| && (|records| == |old(records)| ==> |hand| < |old(hand)|)
                && |dispatched| == |old(dispatched)| + 1 && old(dispatched) <= dispatched
                && Drive(old(hand), old(records), protected)
                == Dispatching(dispatched[|old(dispatched)|], Drive(hand, records, protected))
    {
      hide Drive;
      if !tls13 {
        return Some(NoRenegotiation);
      }
      var message := ReadHandshake();
      if message.Err? {
        return Some(message.error);
      }
      dispatched := dispatched + [message.value];
      return None;
    }

    /** What later reads depend on under TLS 1.3: after a failure the records no longer matter. */
    function View(): Reader
      reads this
    {
      Reader(if inError.Some? then [] else records, input, inError)
    }

    /**
     Fills the input with application data, dispatching every message that comes before it.
     Under TLS 1.3 this does exactly what Drive says of the pending records; before, one
     record decides, and a handshake byte is an error, now and at every later record.
     */
    method FillInput() returns (failure: Option<ReadFailure>)
      requires Settled() && inError == None && input == []
      modifies this`records, this`hand, this`input, this`inError, this`dispatched
      ensures Settled() && (failure == None ==> input != [])
      ensures tls13 ==>
                var o := Drive([], old(records), protected);
                && inError == failure && dispatched == old(dispatched) + o.dispatched
                && o.ending == (if failure.Some? then Broken(failure.value) else Data(input, records))
                && (failure.Some? ==> input == [])
      ensures !tls13 ==>
                && dispatched == old(dispatched)
                && var (step, rest) := TakeRecord(old(records), false, protected, old(hand) != []);
                   OneRecordDecides(step, old(hand), hand, input, inError, failure) && records == rest
    {
      hide NextMessage, Judge, Drive;
      ghost var all := Drive([], records, protected);
      if !tls13 {
        failure := FillFromOneRecord();
        return failure;
      }
      while input == []
        invariant inError == None && hand == []
        invariant Resumes(dispatched, old(dispatched), Onward(hand, records, input, protected), all)
        decreases input == [], |records|
      {
        ghost var left := |records|;
        TakeRecordShrinks(records, tls13, protected, hand != []);
        DriveFromEmpty(records, protected);
        failure := ReadRecord();
        if failure.Some? {
          return failure;
        }
        while hand != []
          invariant inError == None && (input != [] ==> hand == [])
          invariant |records| < left
          invariant Resumes(dispatched, old(dispatched), Onward(hand, records, input, protected), all)
          decreases |records|, |hand|
        {
          failure := HandlePostHandshakeMessage();
          if failure.Some? {
            return failure;
          }
        }
      }
      return None;
    }

    /** Before TLS 1.3 the loops come to their end after one record. */
    method FillFromOneRecord() returns (failure: Option<ReadFailure>)
      requires !tls13 && inError == None && input == []
      modifies this`records, this`hand, this`input, this`inError, this`dispatched
      ensures failure == None ==> input != []
      ensures dispatched == old(dispatched)
      ensures var (step, rest) := TakeRecord(old(records), false, protected, old(hand) != []);
              OneRecordDecides(step, old(hand), hand, input, inError, failure) && records == rest
    {
      hide Judge;
      TakeRecordShrinks(records, false, protected, hand != []);
      failure := ReadRecord();
      if failure.Some? {
        return failure;
      }
      if hand != [] {
        failure := HandlePostHandshakeMessage();
      }
    }

    /**
     Reads up to `size` bytes of application data. Under TLS 1.3 the whole connection goes on as the
     reader on values does; before, the one next record decides.
     */
    method Read(size: nat) returns (r: Result<Text, ReadFailure>)
      requires Settled()
      modifies this`records, this`hand, this`input, this`inError, this`dispatched
      ensures Settled()
      ensures tls13 ==>
                var reply := ReadOnce(old(View()), size, protected);
                r == reply.result && dispatched == old(dispatched) + reply.dispatched && View() == reply.after
      ensures !tls13 ==> dispatched == old(dispatched)
      ensures size == 0 ==> r == Ok([]) && unchanged(this)
      ensures size > 0 && old(input) != [] ==>
                && r == Ok(Front(old(input), size)) && input == old(input)[|r.value|..]
                && records == old(records) && hand == old(hand) && inError == old(inError)
      ensures size > 0 && old(input) == [] && old(inError).Some? ==> r == Err(old(inError).value) && unchanged(this)
      ensures size > 0 && old(input) == [] && old(inError) == None && !tls13 ==>
                var (step, rest) := TakeRecord(old(records), false, protected, old(hand) != []);
                records == rest && OneRecordRead(step, size, old(hand), hand, input, inError, r)
    {
      hide NextMessage, Judge, Drive;
      if size == 0 {
        assert dispatched + [] == dispatched;
        return Ok([]);
      }
      if input == [] {
        if inError.Some? {
          assert dispatched + [] == dispatched;
          return Err(inError.value);
        }
        var failure := FillInput();
        if failure.Some? {
          return Err(failure.value);
        }
      } else {
        assert dispatched + [] == dispatched;
      }
      r := Ok(Front(input, size));
      input := input[|r.value|..];
    }
  }
}
