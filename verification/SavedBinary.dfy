/** The binary form in which downloaded rule sets are kept: content, time of update and entity tag. */
module SavedBinary {
  import opened Bytes
  import opened Integers
  import opened Wrappers

  /** A point in time: whole seconds since the epoch, and the nanoseconds past them. */
  datatype Instant = Instant(seconds: int64, nanos: nat)

  datatype Saved = Saved(content: Text, lastUpdated: Instant, lastEtag: Text)

  function PutI64(n: int64): (s: Text)
    ensures |s| == 8
  {
    var m: nat := if n < 0 then n + TWO_64 else n;
    PutU32(m / 0x1_0000_0000) + PutU32(m % 0x1_0000_0000)
  }

  function I64At(s: Text): int64
    requires |s| >= 8
  {
    ToInt((U32At(s) as int) * 0x1_0000_0000 + U32At(s[4..]))
  }

  lemma I64RoundTrip(n: int64, rest: Text)
    ensures I64At(PutI64(n) + rest) == n && (PutI64(n) + rest)[8..] == rest
  {
    hide PutU32, U32At;
    var m: nat := if n < 0 then n + TWO_64 else n;
    var low := PutU32(m % 0x1_0000_0000) + rest;
    assert PutI64(n) + rest == PutU32(m / 0x1_0000_0000) + low;
    U32RoundTrip(m / 0x1_0000_0000, low);
    U32RoundTrip(m % 0x1_0000_0000, rest);
  }

  function Marshaled(v: Saved): Text {
    [1] + PutUvarint(|v.content|) + v.content + PutI64(v.lastUpdated.seconds) + PutUvarint(|v.lastEtag|) + v.lastEtag
  }

  /** The error of a read that wants `n` bytes more than there are. */
  function Short(available: nat): ReadError {
    if available == 0 then EndOfInput else Truncated
  }

  /** A buffer of `n` bytes read into from an input that ends early. */
  function Partly(s: Text, n: nat): Text
    requires |s| <= n
  {
    s + seq(n - |s|, _ => 0)
  }

  datatype Unmarshaled = Unmarshaled(value: Saved, error: Option<ReadError>)

  /** The version byte is read and not looked at; what follows the tag is ignored. */
  function Unmarshal(data: Text, v: Saved): Unmarshaled {
    if data == [] then Unmarshaled(v, Some(EndOfInput))
    else
      match TakeUvarint(data[1..], 0)
      case Failed(e) => Unmarshaled(v, Some(e))
      case Got(n, s1) =>
        if n > MAX_ALLOCATION then Unmarshaled(v, Some(TooLarge))
        else if |s1| < n then Unmarshaled(v.(content := Partly(s1, n)), Some(Short(|s1|)))
        else
          var v1, s2 := v.(content := s1[..n]), s1[n..];
          if |s2| < 8 then Unmarshaled(v1, Some(Short(|s2|)))
          else
            var v2 := v1.(lastUpdated := Instant(I64At(s2), 0));
            match TakeUvarint(s2[8..], 0)
            case Failed(e) => Unmarshaled(v2, Some(e))
            case Got(m, s3) =>
              if m > MAX_ALLOCATION then Unmarshaled(v2, Some(TooLarge))
              else if |s3| < m then Unmarshaled(v2, Some(Short(|s3|)))
              else Unmarshaled(v2.(lastEtag := s3[..m]), None)
  }

  class Binary {
    var content: Text
    var lastUpdated: Instant
    var lastEtag: Text

    function Value(): Saved
      reads this
    {
      Saved(content, lastUpdated, lastEtag)
    }

    constructor (v: Saved)
      ensures Value() == v
    {
      content, lastUpdated, lastEtag := v.content, v.lastUpdated, v.lastEtag;
    }

    method MarshalBinary() returns (buffer: Text)
      ensures buffer == Marshaled(Value())
    {
      buffer := [1];
      buffer := buffer + PutUvarint(|content|);
      buffer := buffer + content;
      buffer := buffer + PutI64(lastUpdated.seconds);
      buffer := buffer + PutUvarint(|lastEtag|);
      buffer := buffer + lastEtag;
    }

    /** Fields read before an error keep what was read. */
    method UnmarshalBinary(data: Text) returns (error: Option<ReadError>)
      modifies this
      ensures Unmarshaled(Value(), error) == Unmarshal(data, old(Value()))
    {
      var reader := data;
      if reader == [] {
        return Some(EndOfInput);
      }
      reader := reader[1..];
      match TakeUvarint(reader, 0) {
        case Failed(e) => return Some(e);
        case Got(n, rest) =>
          reader := rest;
          if n > MAX_ALLOCATION {
            return Some(TooLarge);
          }
          if |reader| < n {
            content := Partly(reader, n);
            return Some(Short(|reader|));
          }
          content, reader := reader[..n], reader[n..];
      }
      if |reader| < 8 {
        return Some(Short(|reader|));
      }
      lastUpdated, reader := Instant(I64At(reader), 0), reader[8..];
      match TakeUvarint(reader, 0) {
        case Failed(e) => return Some(e);
        case Got(n, rest) =>
          if n > MAX_ALLOCATION {
            return Some(TooLarge);
          }
          if |rest| < n {
            return Some(Short(|rest|));
          }
          lastEtag := rest[..n];
      }
      return None;
    }
  }

  /** What was marshalled is read back into any object, whatever follows, with the time cut to whole seconds. */
  lemma RoundTrip(v: Saved, before: Saved, rest: Text)
    requires |v.content| <= MAX_ALLOCATION && |v.lastEtag| <= MAX_ALLOCATION
    ensures Unmarshal(Marshaled(v) + rest, before)
        == Unmarshaled(v.(lastUpdated := Instant(v.lastUpdated.seconds, 0)), None)
  {
    hide PutUvarint, TakeUvarint, PutI64, I64At;
    var s3 := v.lastEtag + rest;
    var s2 := PutI64(v.lastUpdated.seconds) + (PutUvarint(|v.lastEtag|) + s3);
    var s1 := v.content + s2;
    var data := Marshaled(v) + rest;
    assert data[1..] == PutUvarint(|v.content|) + s1;
    UvarintRoundTrip(|v.content|, s1);
    assert s1[..|v.content|] == v.content && s1[|v.content|..] == s2;
    I64RoundTrip(v.lastUpdated.seconds, PutUvarint(|v.lastEtag|) + s3);
    UvarintRoundTrip(|v.lastEtag|, s3);
    assert s3[..|v.lastEtag|] == v.lastEtag;
  }

  /** Seconds are written in eight bytes, the most significant first, negative ones in two's complement. */
  lemma SecondsBytes(n: int64)
    ensures BigEndian(PutI64(n)[..4]) * 0x1_0000_0000 + BigEndian(PutI64(n)[4..])
         == if n < 0 then 0x1_0000_0000_0000_0000 + n else n
  {
    var m: nat := if n < 0 then n + TWO_64 else n;
    PutsAreBigEndian(0, 0, m / 0x1_0000_0000);
    PutsAreBigEndian(0, 0, m % 0x1_0000_0000);
    hide PutU32, BigEndian;
    assert PutI64(n)[..4] == PutU32(m / 0x1_0000_0000) && PutI64(n)[4..] == PutU32(m % 0x1_0000_0000);
  }

  /** The layout by an example: content "hi", one second after the epoch, tag "x". */
  lemma LayoutBytes()
    ensures Marshaled(Saved([104, 105], Instant(1, 5), [120]))
         == [1, 2, 104, 105, 0, 0, 0, 0, 0, 0, 0, 1, 1, 120]
  {
  }

  /** Where in its binary form each field of `v` ends. */
  function ContentStart(v: Saved): nat {
    1 + |PutUvarint(|v.content|)|
  }

  function TimeStart(v: Saved): nat {
    ContentStart(v) + |v.content|
  }

  /** Where a field begins, and every length before it. */
  predicate FieldStarts(v: Saved, k: nat) {
    || k == 0 || k == 1 || k == ContentStart(v) || k == TimeStart(v)
    || k == TimeStart(v) + 8 || k == TimeStart(v) + 8 + |PutUvarint(|v.lastEtag|)|
  }

  /**
   A form that was cut short is never taken for a whole one: reading it fails, and by then exactly
   the fields that were there in full have been replaced, and of a content that was not, its beginning
   with zeros behind it.
   */
  lemma CutShort(v: Saved, before: Saved, k: nat)
    requires |v.content| <= MAX_ALLOCATION && |v.lastEtag| <= MAX_ALLOCATION && k < |Marshaled(v)|
    ensures var r := Unmarshal(Marshaled(v)[..k], before);
            && r.error == Some(if FieldStarts(v, k) then EndOfInput else Truncated)
            && r.value.lastEtag == before.lastEtag
            && r.value.lastUpdated == (if k < TimeStart(v) + 8 then before.lastUpdated
                                       else Instant(v.lastUpdated.seconds, 0))
            && (k < ContentStart(v) ==> r.value.content == before.content)
            && (k >= ContentStart(v) ==> |r.value.content| == |v.content|)
            && (forall i :: ContentStart(v) <= k && 0 <= i < |v.content| ==>
                  r.value.content[i] == if i < k - ContentStart(v) then v.content[i] else 0)
  {
    AllValuesFit();
    hide PutUvarint, TakeUvarint, PutI64, I64At;
    var length, later := PutUvarint(|v.content|), PutI64(v.lastUpdated.seconds) + TagForm(v);
    FormParts(v);
    if k > 0 {
      Cut([1], length + (v.content + later), k);
      Cut(length, v.content + later, k - 1);
      if k < ContentStart(v) {
        UvarintCutShort(|v.content|, k - 1, 0);
      } else {
        var there := (v.content + later)[..k - ContentStart(v)];
        UvarintRoundTrip(|v.content|, there);
        Cut(v.content, later, |there|);
        hide Unmarshal;
        if k < TimeStart(v) {
          CutWithinContent(before, Marshaled(v)[..k], |v.content|, there);
        } else {
          var rest := later[..k - TimeStart(v)];
          assert there == v.content + rest;
          assert Marshaled(v)[..k] == [1] + (length + there);
          CutBehindContent(v, before, Marshaled(v)[..k], rest);
        }
      }
    }
  }

  lemma CutWithinContent(before: Saved, data: Text, n: nat, there: Text)
    requires data != [] && TakeUvarint(data[1..], 0) == Got(n, there) && |there| < n <= MAX_ALLOCATION
    ensures Unmarshal(data, before)
         == Unmarshaled(before.(content := Partly(there, n)), Some(if there == [] then EndOfInput else Truncated))
  {
  }

  lemma CutBehindContent(v: Saved, before: Saved, data: Text, rest: Text)
    requires |v.content| <= MAX_ALLOCATION && |v.lastEtag| <= MAX_ALLOCATION
    requires var later := PutI64(v.lastUpdated.seconds) + TagForm(v); |rest| < |later| && rest == later[..|rest|]
    requires data != [] && TakeUvarint(data[1..], 0) == Got(|v.content|, v.content + rest)
    ensures var n, tagLength := |rest|, |PutUvarint(|v.lastEtag|)|;
            Unmarshal(data, before)
            == Unmarshaled(
                 before.(
                   content := v.content,
                   lastUpdated := if n < 8 then before.lastUpdated else Instant(v.lastUpdated.seconds, 0)),
                 Some(if n == 0 || n == 8 || n == 8 + tagLength then EndOfInput else Truncated))
  {
    hide PutUvarint, TakeUvarint, PutI64, I64At;
    var time, tag := PutI64(v.lastUpdated.seconds), TagForm(v);
    assert (v.content + rest)[..|v.content|] == v.content && (v.content + rest)[|v.content|..] == rest;
    if |rest| >= 8 {
      Cut(time, tag, |rest|);
      I64RoundTrip(v.lastUpdated.seconds, tag[..|rest| - 8]);
      CutTag(v, |rest| - 8);
    }
  }

  function TagForm(v: Saved): Text {
    PutUvarint(|v.lastEtag|) + v.lastEtag
  }

  lemma FormParts(v: Saved)
    ensures Marshaled(v) == [1] + (PutUvarint(|v.content|) + (v.content + (PutI64(v.lastUpdated.seconds) + TagForm(v))))
  {
    hide PutUvarint, PutI64;
  }

  lemma Cut(a: Text, b: Text, k: nat)
    requires k <= |a| + |b|
    ensures (a + b)[..k] == if k < |a| then a[..k] else a + b[..k - |a|]
    ensures k > 0 && |a| == 1 ==> (a + b)[..k][1..] == b[..k - 1]
  {
  }

  /** The tag, of which `n` bytes with its length are there. */
  lemma CutTag(v: Saved, n: nat)
    requires |v.lastEtag| <= MAX_ALLOCATION && n < |TagForm(v)|
    ensures match TakeUvarint(TagForm(v)[..n], 0)
            case Failed(e) => n < |PutUvarint(|v.lastEtag|)| && e == if n == 0 then EndOfInput else Truncated
            case Got(m, rest) => m == |v.lastEtag| && |rest| < m && |rest| + |PutUvarint(m)| == n
  {
    AllValuesFit();
    hide PutUvarint, TakeUvarint;
    var length := PutUvarint(|v.lastEtag|);
    Cut(length, v.lastEtag, n);
    if n < |length| {
      UvarintCutShort(|v.lastEtag|, n, 0);
    } else {
      UvarintRoundTrip(|v.lastEtag|, v.lastEtag[..n - |length|]);
    }
  }

  /** Any version is accepted: the first byte has no bearing on what is read. */
  lemma VersionIsIgnored(a: byte, b: byte, data: Text, v: Saved)
    ensures Unmarshal([a] + data, v) == Unmarshal([b] + data, v)
  {
    assert ([a] + data)[1..] == data == ([b] + data)[1..];
  }

  /** Reading is final: what was read, written and read again is the same, so only the first reading cuts the time. */
  lemma ReadingIsIdempotent(data: Text, before: Saved, again: Saved)
    requires Unmarshal(data, before).error.None?
    ensures Unmarshal(Marshaled(Unmarshal(data, before).value), again) == Unmarshal(data, before)
  {
    var v := Unmarshal(data, before).value;
    RoundTrip(v, again, []);
    assert Marshaled(v) + [] == Marshaled(v);
  }
}
