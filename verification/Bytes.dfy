/** Byte strings, unsigned varints and length-prefixed strings, as the binary codecs use them. */
module Bytes {
  import opened Integers
  import opened Sequences
  import opened Wrappers

  type byte = b: int | 0 <= b < 256
  type Text = seq<byte>

  datatype ReadError =
    | EndOfInput
    | Truncated        // the input ends inside a value
    | VarintOverflow   // the varint does not fit 64 bits
    | TooLarge         // a length that cannot be allocated: the code panics

  /** A value read off the front of the input, with what is left. */
  datatype Parsed<+T> = Got(value: T, rest: Text) | Failed(error: ReadError)

  /** A reading method returned `r` and left `rest` as the parse `p` says. */
  ghost predicate Returns<T(!new)>(p: Parsed<T>, r: Result<T, ReadError>, rest: Text) {
    match p
    case Got(v, s) => r == Ok(v) && rest == s
    case Failed(e) => r == Err(e)
  }

  const TWO_63: nat := 0x8000_0000_0000_0000
  const TWO_64: nat := 0x1_0000_0000_0000_0000

  function PutUvarint(n: nat): Text {
    if n < 128 then [n] else [n % 128 + 128] + PutUvarint(n / 128)
  }

  /** The varint whose first `i` bytes are already consumed; ten bytes at most, the tenth at most 1. */
  function TakeUvarint(s: Text, i: nat): Parsed<nat>
    requires i <= 10
    decreases 10 - i
  {
    if i == 10 then Failed(VarintOverflow)
    else if s == [] then Failed(if i == 0 then EndOfInput else Truncated)
    else if s[0] < 128 then
      if i == 9 && s[0] > 1 then Failed(VarintOverflow) else Got(s[0], s[1..])
    else
      match TakeUvarint(s[1..], i + 1)
      case Got(v, rest) => Got(s[0] - 128 + 128 * v, rest)
      case Failed(e) => Failed(e)
  }

  /** What still fits when `i` bytes of a varint are consumed. */
  function Capacity(i: nat): nat
    requires i <= 9
    decreases 9 - i
  {
    if i == 9 then 2 else 128 * Capacity(i + 1)
  }

  lemma {:induction false} UvarintRoundTripFrom(n: nat, rest: Text, i: nat)
    requires i <= 9 && n < Capacity(i)
    ensures TakeUvarint(PutUvarint(n) + rest, i) == Got(n, rest)
    decreases n
  {
    if n >= 128 {
      UvarintRoundTripFrom(n / 128, rest, i + 1);
      Associate([n % 128 + 128], PutUvarint(n / 128), rest);
      assert n == n % 128 + 128 * (n / 128);
    }
  }

  /** Every 64-bit value survives a varint, whatever follows it. */
  lemma UvarintRoundTrip(n: nat, rest: Text)
    requires n < TWO_64
    ensures TakeUvarint(PutUvarint(n) + rest, 0) == Got(n, rest)
  {
    AllValuesFit();
    UvarintRoundTripFrom(n, rest, 0);
  }

  lemma AllValuesFit()
    ensures Capacity(0) == TWO_64
  {
    assert Capacity(5) == 128 * (128 * (128 * (128 * 2)));
    assert Capacity(0) == 128 * (128 * (128 * (128 * (128 * Capacity(5)))));
  }

  /** The seven low bits of every byte, the first byte the least significant. */
  function LowSevens(s: Text): nat {
    if s == [] then 0 else s[0] % 128 + 128 * LowSevens(s[1..])
  }

  /**
   Written are the seven-bit digits of the value, least significant first; every byte but the last has its top bit
   set.
   */
  lemma {:induction false} UvarintDigits(n: nat)
    ensures var s := PutUvarint(n);
            && LowSevens(s) == n
            && s != [] && (forall i :: 0 <= i < |s| ==> (s[i] >= 128 <==> i < |s| - 1))
            && (|s| > 1 ==> s[|s| - 1] > 0)
    decreases n
  {
    var s := PutUvarint(n);
    if n >= 128 {
      UvarintDigits(n / 128);
      assert s[1..] == PutUvarint(n / 128);
      assert forall i :: 0 < i < |s| ==> s[i] == s[1..][i - 1];
    }
  }

  /** A varint that is cut short is told apart from none at all. */
  lemma {:induction false} UvarintCutShort(n: nat, k: nat, i: nat)
    requires i <= 9 && n < Capacity(i) && k < |PutUvarint(n)|
    ensures TakeUvarint(PutUvarint(n)[..k], i) == Failed(if i == 0 && k == 0 then EndOfInput else Truncated)
    decreases n
  {
    if k > 0 {
      UvarintCutShort(n / 128, k - 1, i + 1);
      assert PutUvarint(n)[..k][1..] == PutUvarint(n / 128)[..k - 1];
    }
  }

  /** Nine bytes that go on and a tenth that says more than 64 bits hold are too many, whatever follows. */
  lemma {:induction false} UvarintOverflows(s: Text, i: nat)
    requires i <= 9 && |s| >= 10 - i && s[9 - i] > 1 && forall j :: 0 <= j < 9 - i ==> s[j] >= 128
    ensures TakeUvarint(s, i) == Failed(VarintOverflow)
    decreases 9 - i
  {
    if i < 9 {
      assert forall j :: 0 <= j < 8 - i ==> s[1..][j] == s[j + 1];
      UvarintOverflows(s[1..], i + 1);
    }
  }

  /** A varint read leaves a proper suffix and yields a 64-bit value. */
  lemma {:induction false} UvarintBounds(s: Text, i: nat)
    requires i <= 9 && TakeUvarint(s, i).Got?
    ensures TakeUvarint(s, i).value < Capacity(i)
    ensures |TakeUvarint(s, i).rest| < |s|
    ensures TakeUvarint(s, i).rest == s[|s| - |TakeUvarint(s, i).rest|..]
    decreases 9 - i
  {
    if s[0] >= 128 {
      UvarintBounds(s[1..], i + 1);
    } else {
      assert 2 <= Capacity(i) && (i < 9 ==> 128 <= Capacity(i)) by {
        CapacityAtLeast(i);
      }
    }
  }

  lemma {:induction false} CapacityAtLeast(i: nat)
    requires i <= 9
    ensures Capacity(i) >= 2 && (i < 9 ==> Capacity(i) >= 256)
    decreases 9 - i
  {
    if i < 9 {
      CapacityAtLeast(i + 1);
    }
  }

  /** The address space of the Go runtime on 64-bit systems: making a larger slice panics. */
  const MAX_ALLOCATION: nat := 0x1_0000_0000_0000

  function PutString(s: Text): Text {
    PutUvarint(|s|) + s
  }

  function TakeString(s: Text): Parsed<Text> {
    match TakeUvarint(s, 0)
    case Failed(e) => Failed(e)
    case Got(n, rest) =>
      if n > MAX_ALLOCATION then Failed(TooLarge)
      else if n <= |rest| then Got(rest[..n], rest[n..])
      else Failed(EndOfInput)
  }

  lemma StringRoundTrip(s: Text, rest: Text)
    requires |s| <= MAX_ALLOCATION
    ensures TakeString(PutString(s) + rest) == Got(s, rest)
  {
    assert PutString(s) + rest == PutUvarint(|s|) + (s + rest);
    UvarintRoundTrip(|s|, s + rest);
  }

  /** A string that is cut short anywhere is not read; only within its length it is not the input's end that is told. */
  lemma StringCutShort(s: Text, k: nat)
    requires |s| <= MAX_ALLOCATION && k < |PutString(s)|
    ensures TakeString(PutString(s)[..k]) == Failed(if 0 < k < |PutUvarint(|s|)| then Truncated else EndOfInput)
  {
    var length := PutUvarint(|s|);
    if k < |length| {
      assert Capacity(0) >= TWO_64 by {
        AllValuesFit();
      }
      assert PutString(s)[..k] == length[..k];
      UvarintCutShort(|s|, k, 0);
    } else {
      assert PutString(s)[..k] == length + s[..k - |length|];
      UvarintRoundTrip(|s|, s[..k - |length|]);
    }
  }

  /** A length that cannot be allocated is told apart, whatever follows. */
  lemma StringTooLong(n: nat, rest: Text)
    requires MAX_ALLOCATION < n < TWO_64
    ensures TakeString(PutUvarint(n) + rest) == Failed(TooLarge)
  {
    UvarintRoundTrip(n, rest);
  }

  /** Reinterpreting keeps the value modulo 2^64 and brings it into the signed range. */
  lemma ToIntWraps(n: nat)
    requires n < 0x1_0000_0000_0000_0000
    ensures -0x8000_0000_0000_0000 <= ToInt(n) < 0x8000_0000_0000_0000
    ensures ToInt(n) == n || ToInt(n) == n - 0x1_0000_0000_0000_0000
  {
  }

  /** A 64-bit unsigned value reinterpreted as signed. */
  function ToInt(n: nat): int {
    if n < TWO_63 then n else n - TWO_64
  }

  // ----- big-endian integers -----

  function PutU16(n: u16): (s: Text)
    ensures |s| == 2
  {
    [n / 0x100, n % 0x100]
  }

  function Pair(high: byte, low: byte): u16 {
    (high as int) * 0x100 + low
  }

  function U16At(s: Text): u16
    requires |s| >= 2
  {
    Pair(s[0], s[1])
  }

  function PutU24(n: u24): (s: Text)
    ensures |s| == 3
  {
    [n / 0x1_0000] + PutU16(n % 0x1_0000)
  }

  function U24At(s: Text): u24
    requires |s| >= 3
  {
    s[0] * 0x1_0000 + U16At(s[1..])
  }

  function PutU32(n: u32): (s: Text)
    ensures |s| == 4
  {
    PutU16(n / 0x1_0000) + PutU16(n % 0x1_0000)
  }

  function U32At(s: Text): u32
    requires |s| >= 4
  {
    U16At(s) * 0x1_0000 + U16At(s[2..])
  }

  /** The number written in base 256, the most significant byte first. */
  function BigEndian(s: Text): nat {
    if s == [] then 0 else 0x100 * BigEndian(s[..|s| - 1]) + s[|s| - 1]
  }

  lemma PutsAreBigEndian(a: u16, b: u24, c: u32)
    ensures BigEndian(PutU16(a)) == a && BigEndian(PutU24(b)) == b && BigEndian(PutU32(c)) == c
  {
    TwoBytes(PutU16(a));
    TwoBytes(PutU24(b)[1..]);
    FourBytes(PutU32(c));
    ThreeBytes(PutU24(b));
  }

  lemma TwoBytes(s: Text)
    requires |s| == 2
    ensures BigEndian(s) == 0x100 * s[0] as int + s[1]
  {
    var first := s[..1];
    assert first[..0] == [];
    assert BigEndian(first) == s[0];
  }

  lemma ThreeBytes(s: Text)
    requires |s| == 3
    ensures BigEndian(s) == 0x1_0000 * s[0] as int + 0x100 * s[1] as int + s[2]
  {
    TwoBytes(s[..2]);
  }

  lemma FourBytes(s: Text)
    requires |s| == 4
    ensures BigEndian(s) == 0x100_0000 * s[0] as int + 0x1_0000 * s[1] as int + 0x100 * s[2] as int + s[3]
  {
    ThreeBytes(s[..3]);
  }

  lemma U16RoundTrip(n: u16, rest: Text)
    ensures U16At(PutU16(n) + rest) == n && (PutU16(n) + rest)[2..] == rest
  {
  }

  lemma U24RoundTrip(n: u24, rest: Text)
    ensures U24At(PutU24(n) + rest) == n && (PutU24(n) + rest)[3..] == rest
  {
    assert (PutU24(n) + rest)[1..] == PutU16(n % 0x1_0000) + rest;
    U16RoundTrip(n % 0x1_0000, rest);
  }

  lemma U32RoundTrip(n: u32, rest: Text)
    ensures U32At(PutU32(n) + rest) == n && (PutU32(n) + rest)[4..] == rest
  {
    var low := PutU16(n % 0x1_0000) + rest;
    assert PutU32(n) + rest == PutU16(n / 0x1_0000) + low;
    U16RoundTrip(n / 0x1_0000, low);
    U16RoundTrip(n % 0x1_0000, rest);
  }
}
