/**
 The geosite database: a sorted index of codes with block offsets, followed
 by the blocks. The writer lays the file out in one pass over sorted keys;
 the reader parses the index through a read-ahead buffer and later seeks to blocks.
 */
module Geosite {
  import opened Bytes
  import opened Sequences
  import opened Wrappers

  datatype Item = Item(kind: byte, value: Text)
  type Domains = map<Text, seq<Item>>

  /** One line of the index. */
  datatype Entry = Entry(code: Text, offset: nat, count: nat)

  datatype GeositeError =
    | BadInput(cause: ReadError)
    | UnknownVersion
    | UnknownCode
    | BadSeek
    | BadLength   // a list length that is negative or cannot be allocated: the code panics

  /** Bytes taken by an element of a list of strings and of a list of items. */
  const STRING_SIZE: nat := 16
  const ITEM_SIZE: nat := 24

  // ----- the file layout -----

  function PutItem(item: Item): Text {
    [item.kind] + PutString(item.value)
  }

  function Block(items: seq<Item>): Text {
    if items == [] then [] else PutItem(items[0]) + Block(items[1..])
  }

  function Content(keys: seq<Text>, domains: Domains): Text
    requires forall k :: k in keys ==> k in domains
  {
    if keys == [] then [] else Block(domains[keys[0]]) + Content(keys[1..], domains)
  }

  function PutEntry(e: Entry): Text {
    PutString(e.code) + PutUvarint(e.offset) + PutUvarint(e.count)
  }

  function IndexEntries(keys: seq<Text>, domains: Domains, offset: nat): Text
    requires forall k :: k in keys ==> k in domains
  {
    if keys == [] then []
    else
      var items := domains[keys[0]];
      PutEntry(Entry(keys[0], offset, |items|)) + IndexEntries(keys[1..], domains, offset + |Block(items)|)
  }

  function FileHead(keys: seq<Text>, domains: Domains): Text
    requires forall k :: k in keys ==> k in domains
  {
    [0] + PutUvarint(|keys|) + IndexEntries(keys, domains, 0)
  }

  function FileBytes(keys: seq<Text>, domains: Domains): Text
    requires forall k :: k in keys ==> k in domains
  {
    FileHead(keys, domains) + Content(keys, domains)
  }

  // ----- what a file says -----

  /** Offsets and item counts by code, and the position right after the index. */
  datatype Metadata = Metadata(index: map<Text, int>, length: map<Text, int>, start: nat)

  datatype Entries = Entries(index: map<Text, int>, length: map<Text, int>) {
    function Add(e: Entry): Entries {
      Entries(index[e.code := ToInt(e.offset)], length[e.code := ToInt(e.count)])
    }
  }

  function TakeEntry(s: Text): Parsed<Entry> {
    match TakeString(s)
    case Failed(e) => Failed(e)
    case Got(code, s1) =>
      match TakeUvarint(s1, 0)
      case Failed(e) => Failed(e)
      case Got(offset, s2) =>
        match TakeUvarint(s2, 0)
        case Failed(e) => Failed(e)
        case Got(count, rest) => Got(Entry(code, offset, count), rest)
  }

  function TakeEntries(s: Text, n: nat, acc: Entries): Parsed<Entries>
    decreases n
  {
    if n == 0 then Got(acc, s)
    else
      match TakeEntry(s)
      case Failed(e) => Failed(e)
      case Got(e, rest) => TakeEntries(rest, n - 1, acc.Add(e))
  }

  /** The entry count and the entries. */
  function TakeIndex(s: Text): Result<(Entries, Text), GeositeError> {
    match TakeUvarint(s, 0)
    case Failed(e) => Err(BadInput(e))
    case Got(n, rest) =>
      if n * STRING_SIZE > MAX_ALLOCATION then Err(BadLength)
      else
        match TakeEntries(rest, n, Entries(map[], map[]))
        case Failed(e) => Err(BadInput(e))
        case Got(entries, after) => Ok((entries, after))
  }

  function ParseMetadata(file: Text): Result<Metadata, GeositeError> {
    if file == [] then Err(BadInput(EndOfInput))
    else if file[0] != 0 then Err(UnknownVersion)
    else
      match TakeIndex(file[1..])
      case Err(e) => Err(e)
      case Ok((entries, after)) =>
        IndexShrinks(file[1..]);
        Ok(Metadata(entries.index, entries.length, |file| - |after|))
  }

  lemma IndexShrinks(s: Text)
    requires TakeIndex(s).Ok?
    ensures |TakeIndex(s).value.1| < |s|
    ensures TakeIndex(s).value.0.index.Keys == TakeIndex(s).value.0.length.Keys
  {
    UvarintBounds(s, 0);
    var n := TakeUvarint(s, 0);
    EntriesShrink(n.rest, n.value, Entries(map[], map[]));
  }

  function TakeItem(s: Text): Parsed<Item> {
    if s == [] then Failed(EndOfInput)
    else
      match TakeString(s[1..])
      case Failed(e) => Failed(e)
      case Got(value, rest) => Got(Item(s[0], value), rest)
  }

  function TakeItems(s: Text, n: nat): Parsed<seq<Item>>
    decreases n
  {
    if n == 0 then Got([], s)
    else
      match TakeItem(s)
      case Failed(e) => Failed(e)
      case Got(item, s1) => Prefixed([item], TakeItems(s1, n - 1))
  }

  function Prefixed(items: seq<Item>, p: Parsed<seq<Item>>): Parsed<seq<Item>> {
    match p
    case Failed(e) => Failed(e)
    case Got(more, rest) => Got(items + more, rest)
  }

  /** What is left of the file from a position, nothing when the position is past its end. */
  function From(file: Text, position: nat): Text {
    if position <= |file| then file[position..] else []
  }

  /** Where a block is taken to start, in 64 bits. */
  function Position(m: Metadata, code: Text): int
    requires code in m.index
  {
    ToInt((m.start + m.index[code]) % TWO_64)
  }

  function ReadCode(file: Text, m: Metadata, code: Text): Result<seq<Item>, GeositeError>
    requires m.index.Keys == m.length.Keys
  {
    if code !in m.index then Err(UnknownCode)
    else if Position(m, code) < 0 then Err(BadSeek)
    else if m.length[code] < 0 || m.length[code] * ITEM_SIZE > MAX_ALLOCATION then Err(BadLength)
    else
      match TakeItems(From(file, Position(m, code)), m.length[code])
      case Failed(e) => Err(BadInput(e))
      case Got(items, _) => Ok(items)
  }

  lemma PositionIsPlain(m: Metadata, code: Text)
    requires code in m.index && 0 <= m.start + m.index[code] < TWO_63
    ensures Position(m, code) == m.start + m.index[code]
  {
  }

  lemma {:induction false} ItemsCounted(s: Text, n: nat)
    ensures TakeItems(s, n).Got? ==> |TakeItems(s, n).value| == n
    decreases n
  {
    hide TakeItem;
    if n > 0 && TakeItem(s).Got? {
      ItemsCounted(TakeItem(s).rest, n - 1);
    }
  }

  /** A code is unknown exactly when the index lacks it; what a known one reads as has the number of items indexed. */
  lemma ReadExactly(file: Text, m: Metadata, code: Text)
    requires m.index.Keys == m.length.Keys
    ensures var r := ReadCode(file, m, code);
            && (r == Err(UnknownCode) <==> code !in m.index)
            && (r.Ok? ==> code in m.index && |r.value| == m.length[code])
            && (code in m.index && -(TWO_63 as int) <= m.start + m.index[code] < TWO_63 ==>
                  && (r == Err(BadSeek) <==> m.start + m.index[code] < 0)
                  && (m.start + m.index[code] >= 0 ==>
                        (r == Err(BadLength) <==> m.length[code] < 0 || m.length[code] * 24 > MAX_ALLOCATION)))
  {
    if code in m.index && m.length[code] >= 0 && Position(m, code) >= 0 {
      ItemsCounted(From(file, Position(m, code)), m.length[code]);
    }
    hide TakeItems;
  }

  lemma StringShrinks(s: Text)
    requires TakeString(s).Got?
    ensures |TakeString(s).rest| < |s|
  {
    UvarintBounds(s, 0);
  }

  lemma EntryShrinks(s: Text)
    requires TakeEntry(s).Got?
    ensures |TakeEntry(s).rest| < |s|
  {
    StringShrinks(s);
    var name := TakeString(s);
    UvarintBounds(name.rest, 0);
    UvarintBounds(TakeUvarint(name.rest, 0).rest, 0);
  }

  lemma {:induction false} EntriesShrink(s: Text, n: nat, acc: Entries)
    requires TakeEntries(s, n, acc).Got? && acc.index.Keys == acc.length.Keys
    ensures |TakeEntries(s, n, acc).rest| <= |s|
    ensures TakeEntries(s, n, acc).value.index.Keys == TakeEntries(s, n, acc).value.length.Keys
    decreases n
  {
    hide TakeEntry;
    if n > 0 {
      EntryShrinks(s);
      var e := TakeEntry(s);
      EntriesShrink(e.rest, n - 1, acc.Add(e.value));
    }
  }

  // ----- round trip -----

  function Offset(keys: seq<Text>, domains: Domains, k: Text): nat
    requires k in keys && forall k :: k in keys ==> k in domains
  {
    if keys[0] == k then 0 else |Block(domains[keys[0]])| + Offset(keys[1..], domains, k)
  }

  lemma {:induction false} OffsetIsStart(keys: seq<Text>, domains: Domains, k: Text)
    requires k in keys && forall k :: k in keys ==> k in domains
    ensures Offset(keys, domains, k) <= |Content(keys, domains)|
    ensures Block(domains[k]) <= Content(keys, domains)[Offset(keys, domains, k)..]
  {
    if keys[0] != k {
      OffsetIsStart(keys[1..], domains, k);
      assert Content(keys, domains)[Offset(keys, domains, k)..]
          == Content(keys[1..], domains)[Offset(keys[1..], domains, k)..];
    }
  }

  /** The index a reader builds from the entries of the listed keys. */
  function Indexed(keys: seq<Text>, domains: Domains, offset: nat, acc: Entries): Entries
    requires forall k :: k in keys ==> k in domains
    decreases keys
  {
    if keys == [] then acc
    else
      var items := domains[keys[0]];
      Indexed(keys[1..], domains, offset + |Block(items)|, acc.Add(Entry(keys[0], offset, |items|)))
  }

  lemma {:induction false} IndexedAt(keys: seq<Text>, domains: Domains, offset: nat, acc: Entries, k: Text)
    requires forall k :: k in keys ==> k in domains
    requires Distinct(keys) && offset + |Content(keys, domains)| < TWO_63
    ensures var all := Indexed(keys, domains, offset, acc);
            && (k in all.index <==> k in keys || k in acc.index)
            && (k in all.length <==> k in keys || k in acc.length)
            && (k !in keys && k in acc.index ==> all.index[k] == acc.index[k])
            && (k !in keys && k in acc.length ==> all.length[k] == acc.length[k])
            && (k in keys ==> all.length[k] == |domains[k]| && all.index[k] == offset + Offset(keys, domains, k))
    decreases keys
  {
    if keys != [] {
      var items := domains[keys[0]];
      BlockSize(items);
      var next := acc.Add(Entry(keys[0], offset, |items|));
      IndexedAt(keys[1..], domains, offset + |Block(items)|, next, k);
      assert keys[0] !in keys[1..];
      assert k in keys <==> k == keys[0] || k in keys[1..];
    }
  }

  lemma {:induction false} BlockSize(items: seq<Item>)
    ensures |items| <= |Block(items)|
    ensures forall i :: 0 <= i < |items| ==> |items[i].value| <= |Block(items)|
  {
    if items != [] {
      BlockSize(items[1..]);
    }
  }

  lemma ItemRoundTrip(item: Item, rest: Text)
    requires |item.value| <= MAX_ALLOCATION
    ensures TakeItem(PutItem(item) + rest) == Got(item, rest)
  {
    assert (PutItem(item) + rest)[1..] == PutString(item.value) + rest;
    StringRoundTrip(item.value, rest);
  }

  lemma {:induction false} ItemsRoundTrip(items: seq<Item>, rest: Text)
    requires |Block(items)| <= MAX_ALLOCATION
    ensures TakeItems(Block(items) + rest, |items|) == Got(items, rest)
  {
    hide TakeItem, PutItem;
    if items == [] {
      assert Block(items) + rest == rest;
    } else {
      BlockSize(items);
      var more := Block(items[1..]) + rest;
      assert Block(items) + rest == PutItem(items[0]) + more;
      ItemRoundTrip(items[0], more);
      ItemsRoundTrip(items[1..], rest);
      assert [items[0]] + items[1..] == items;
    }
  }

  /** A block that is cut short anywhere is not read. */
  lemma {:induction false} ItemsCutShort(items: seq<Item>, k: nat)
    requires |Block(items)| <= MAX_ALLOCATION && k < |Block(items)|
    ensures TakeItems(Block(items)[..k], |items|).Failed?
  {
    hide TakeString, TakeItem;
    var item, later := items[0], Block(items[1..]);
    var first := PutItem(item);
    BlockSize(items);
    if k < |first| {
      assert Block(items)[..k] == first[..k];
      ItemCutShort(item, k);
    } else {
      assert Block(items)[..k] == first + later[..k - |first|];
      ItemRoundTrip(item, later[..k - |first|]);
      ItemsCutShort(items[1..], k - |first|);
    }
  }

  lemma ItemCutShort(item: Item, k: nat)
    requires |item.value| <= MAX_ALLOCATION && k < |PutItem(item)|
    ensures TakeItem(PutItem(item)[..k]).Failed?
  {
    if k > 0 {
      assert PutItem(item)[..k][1..] == PutString(item.value)[..k - 1];
      StringCutShort(item.value, k - 1);
    }
  }

  lemma EntryRoundTrip(e: Entry, rest: Text)
    requires |e.code| <= MAX_ALLOCATION && e.offset < TWO_64 && e.count < TWO_64
    ensures TakeEntry(PutEntry(e) + rest) == Got(e, rest)
  {
    var after := PutUvarint(e.count) + rest;
    assert PutEntry(e) + rest == PutString(e.code) + (PutUvarint(e.offset) + after);
    StringRoundTrip(e.code, PutUvarint(e.offset) + after);
    UvarintRoundTrip(e.offset, after);
    UvarintRoundTrip(e.count, rest);
  }

  lemma {:induction false} EntriesRoundTrip(keys: seq<Text>, domains: Domains, offset: nat, acc: Entries, rest: Text)
    requires forall k :: k in keys ==> k in domains
    requires |IndexEntries(keys, domains, offset)| <= MAX_ALLOCATION
    requires offset + |Content(keys, domains)| < TWO_63
    ensures TakeEntries(IndexEntries(keys, domains, offset) + rest, |keys|, acc)
         == Got(Indexed(keys, domains, offset, acc), rest)
    decreases keys
  {
    hide TakeEntry, Block;
    if keys == [] {
      assert IndexEntries(keys, domains, offset) + rest == rest;
    } else {
      var items := domains[keys[0]];
      BlockSize(items);
      var e := Entry(keys[0], offset, |items|);
      var later := IndexEntries(keys[1..], domains, offset + |Block(items)|) + rest;
      assert IndexEntries(keys, domains, offset) + rest == PutEntry(e) + later;
      EntryRoundTrip(e, later);
      EntriesRoundTrip(keys[1..], domains, offset + |Block(items)|, acc.Add(e), rest);
    }
  }

  lemma EntryCutShort(e: Entry, k: nat)
    requires |e.code| <= MAX_ALLOCATION && e.offset < TWO_64 && e.count < TWO_64 && k < |PutEntry(e)|
    ensures TakeEntry(PutEntry(e)[..k]).Failed?
  {
    hide PutString, PutUvarint, TakeString, TakeUvarint;
    AllValuesFit();
    var code, offset, count := PutString(e.code), PutUvarint(e.offset), PutUvarint(e.count);
    var cut := PutEntry(e)[..k];
    if k < |code| {
      assert cut == code[..k];
      StringCutShort(e.code, k);
    } else if k < |code| + |offset| {
      var there := offset[..k - |code|];
      assert cut == code + there;
      StringRoundTrip(e.code, there);
      UvarintCutShort(e.offset, |there|, 0);
    } else {
      var there := count[..k - |code| - |offset|];
      assert cut == code + (offset + there);
      StringRoundTrip(e.code, offset + there);
      UvarintRoundTrip(e.offset, there);
      UvarintCutShort(e.count, |there|, 0);
    }
  }

  lemma {:induction false} EntriesCutShort(keys: seq<Text>, domains: Domains, offset: nat, acc: Entries, k: nat)
    requires forall k :: k in keys ==> k in domains
    requires k < |IndexEntries(keys, domains, offset)| <= MAX_ALLOCATION
    requires offset + |Content(keys, domains)| < TWO_63
    ensures TakeEntries(IndexEntries(keys, domains, offset)[..k], |keys|, acc).Failed?
    decreases keys
  {
    hide TakeEntry, Block, PutString, PutUvarint;
    var items := domains[keys[0]];
    BlockSize(items);
    var e, next := Entry(keys[0], offset, |items|), offset + |Block(items)|;
    var line, later := PutEntry(e), IndexEntries(keys[1..], domains, next);
    var cut := IndexEntries(keys, domains, offset)[..k];
    EntryFits(e, line);
    if k < |line| {
      assert cut == line[..k];
      EntryCutShort(e, k);
    } else {
      assert cut == line + later[..k - |line|];
      EntryRoundTrip(e, later[..k - |line|]);
      EntriesCutShort(keys[1..], domains, next, acc.Add(e), k - |line|);
    }
  }

  lemma EntryFits(e: Entry, line: Text)
    requires line == PutEntry(e)
    ensures |e.code| <= |line|
  {
  }

  /** A file that lost its end within the index cannot be opened. */
  lemma CutHead(keys: seq<Text>, domains: Domains, n: nat)
    requires forall k :: k in keys ==> k in domains
    requires |FileBytes(keys, domains)| <= MAX_ALLOCATION && |keys| * STRING_SIZE <= MAX_ALLOCATION
    requires n < |FileHead(keys, domains)|
    ensures var m := ParseMetadata(FileBytes(keys, domains)[..n]); m.Err? && m.error.BadInput?
  {
    hide IndexEntries, Content, PutUvarint, TakeEntries, TakeUvarint;
    var count, entries := PutUvarint(|keys|), IndexEntries(keys, domains, 0);
    var cut := FileBytes(keys, domains)[..n];
    if n > 0 {
      AllValuesFit();
      if n - 1 < |count| {
        assert cut[1..] == count[..n - 1];
        UvarintCutShort(|keys|, n - 1, 0);
      } else {
        var there := entries[..n - 1 - |count|];
        assert cut[1..] == count + there;
        UvarintRoundTrip(|keys|, there);
        EntriesCutShort(keys, domains, 0, Entries(map[], map[]), |there|);
      }
    }
  }

  lemma {:induction false} EntriesCount(keys: seq<Text>, domains: Domains, offset: nat)
    requires forall k :: k in keys ==> k in domains
    ensures |keys| <= |IndexEntries(keys, domains, offset)|
    decreases keys
  {
    hide Block;
    if keys != [] {
      EntriesCount(keys[1..], domains, offset + |Block(domains[keys[0]])|);
    }
  }

  lemma IndexRoundTrip(keys: seq<Text>, domains: Domains, rest: Text)
    requires forall k :: k in keys ==> k in domains
    requires |FileBytes(keys, domains)| <= MAX_ALLOCATION && |keys| * STRING_SIZE <= MAX_ALLOCATION
    ensures TakeIndex(PutUvarint(|keys|) + (IndexEntries(keys, domains, 0) + rest))
         == Ok((Indexed(keys, domains, 0, Entries(map[], map[])), rest))
  {
    var entries := IndexEntries(keys, domains, 0);
    EntriesCount(keys, domains, 0);
    UvarintRoundTrip(|keys|, entries + rest);
    EntriesRoundTrip(keys, domains, 0, Entries(map[], map[]), rest);
  }

  lemma MetadataFromIndex(file: Text, entries: Entries, after: Text)
    requires file != [] && file[0] == 0 && TakeIndex(file[1..]) == Ok((entries, after))
    ensures |after| < |file| && ParseMetadata(file) == Ok(Metadata(entries.index, entries.length, |file| - |after|))
    ensures entries.index.Keys == entries.length.Keys
  {
    IndexShrinks(file[1..]);
  }

  lemma MetadataFailures(file: Text)
    ensures file == [] ==> ParseMetadata(file) == Err(BadInput(EndOfInput))
    ensures file != [] && file[0] != 0 ==> ParseMetadata(file) == Err(UnknownVersion)
    ensures file != [] && file[0] == 0 && TakeIndex(file[1..]).Err? ==>
              ParseMetadata(file) == Err(TakeIndex(file[1..]).error)
  {
    hide TakeIndex;
  }

  /** A file of another version, or with more codes than can be listed, is refused whatever it goes on with. */
  lemma RefusedHeads(version: byte, n: nat, rest: Text)
    requires n < TWO_64
    ensures version != 0 ==> ParseMetadata([version] + rest) == Err(UnknownVersion)
    ensures n * 16 > MAX_ALLOCATION ==> ParseMetadata([0] + (PutUvarint(n) + rest)) == Err(BadLength)
  {
    UvarintRoundTrip(n, rest);
    hide TakeEntries, PutUvarint;
    assert ([0] + (PutUvarint(n) + rest))[1..] == PutUvarint(n) + rest;
  }

  lemma MetadataRoundTrip(keys: seq<Text>, domains: Domains)
    requires forall k :: k in keys ==> k in domains
    requires |FileBytes(keys, domains)| <= MAX_ALLOCATION && |keys| * STRING_SIZE <= MAX_ALLOCATION
    ensures var entries := Indexed(keys, domains, 0, Entries(map[], map[]));
            ParseMetadata(FileBytes(keys, domains))
                == Ok(Metadata(entries.index, entries.length, |FileHead(keys, domains)|))
  {
    hide TakeIndex, IndexEntries, Indexed, Content, PutUvarint;
    var file, content := FileBytes(keys, domains), Content(keys, domains);
    var count, entries := PutUvarint(|keys|), IndexEntries(keys, domains, 0);
    Associate([0], count, entries);
    Associate([0], count + entries, content);
    Associate(count, entries, content);
    assert file == [0] + (count + (entries + content));
    assert file[1..] == count + (entries + content);
    IndexRoundTrip(keys, domains, content);
    MetadataFromIndex(file, Indexed(keys, domains, 0, Entries(map[], map[])), content);
  }

  lemma CodeRoundTrip(keys: seq<Text>, domains: Domains, m: Metadata, code: Text)
    requires code in keys && forall k :: k in keys ==> k in domains
    requires |FileBytes(keys, domains)| <= MAX_ALLOCATION && |domains[code]| * ITEM_SIZE <= MAX_ALLOCATION
    requires m.start == |FileHead(keys, domains)|
    requires m.index.Keys == m.length.Keys && code in m.index
    requires m.index[code] == Offset(keys, domains, code) && m.length[code] == |domains[code]|
    ensures ReadCode(FileBytes(keys, domains), m, code) == Ok(domains[code])
  {
    hide Content, Block, FileHead, Offset, PutUvarint, IndexEntries, TakeItems;
    var head, content := FileHead(keys, domains), Content(keys, domains);
    var at, block := m.index[code], Block(domains[code]);
    OffsetIsStart(keys, domains, code);
    var rest := content[at..][|block|..];
    assert content[at..] == block + rest by { Rejoin(content[at..], |block|); }
    SeekBehind(head, content, at);
    ItemsRoundTrip(domains[code], rest);
  }

  /**
   From a file that lost its end, behind the index, a code still reads its own items if its block
   is there, and fails if not: it never reads anything else.
   */
  lemma CutFile(keys: seq<Text>, domains: Domains, m: Metadata, code: Text, n: nat)
    requires code in keys && forall k :: k in keys ==> k in domains
    requires |FileBytes(keys, domains)| <= MAX_ALLOCATION && |domains[code]| * ITEM_SIZE <= MAX_ALLOCATION
    requires m.start == |FileHead(keys, domains)| <= n <= |FileBytes(keys, domains)|
    requires m.index.Keys == m.length.Keys && code in m.index
    requires m.index[code] == Offset(keys, domains, code) && m.length[code] == |domains[code]|
    ensures var r := ReadCode(FileBytes(keys, domains)[..n], m, code);
            if domains[code] == [] || m.start + m.index[code] + |Block(domains[code])| <= n
            then r == Ok(domains[code]) else r.Err? && r.error.BadInput?
  {
    hide Content, Block, FileHead, Offset, PutUvarint, IndexEntries, TakeItems, Position;
    OffsetIsStart(keys, domains, code);
    PositionIsPlain(m, code);
    var head, content := FileHead(keys, domains), Content(keys, domains);
    var at, there := m.index[code], content[..n - |head|];
    assert (head + content)[..n] == head + there;
    SeekBehind(head, there, at);
    CutBlock(domains[code], content, at, |there|);
  }

  /** The items at a place of the blocks when only the first `n` bytes of these are there. */
  lemma CutBlock(items: seq<Item>, content: Text, at: nat, n: nat)
    requires n <= |content| && at <= |content| <= MAX_ALLOCATION && Block(items) <= content[at..]
    ensures var p := TakeItems(From(content[..n], at), |items|);
            if items == [] || at + |Block(items)| <= n then p.Got? && p.value == items else p.Failed?
  {
    hide TakeItems, Block;
    var there, block := content[..n], Block(items);
    if items == [] {
      NoItems(From(there, at));
    } else if at + |block| <= n {
      assert there[at..] == block + there[at..][|block|..];
      ItemsRoundTrip(items, there[at..][|block|..]);
    } else {
      BlockSize(items);
      var k := if at <= n then n - at else 0;
      assert From(there, at) == block[..k];
      ItemsCutShort(items, k);
    }
  }

  lemma NoItems(s: Text)
    ensures TakeItems(s, 0) == Got([], s)
  {
  }

  lemma Rejoin(t: Text, n: nat)
    requires n <= |t|
    ensures t == t[..n] + t[n..]
  {
  }

  lemma SeekBehind(head: Text, content: Text, at: nat)
    ensures From(head + content, |head| + at) == From(content, at)
  {
  }

  /** What a running writer has in memory: the list of codes, the lists of items and the file. */
  predicate InMemory(file: Text, domains: Domains) {
    && |file| <= MAX_ALLOCATION && |domains| * STRING_SIZE <= MAX_ALLOCATION
    && forall code :: code in domains ==> |domains[code]| * ITEM_SIZE <= MAX_ALLOCATION
  }

  lemma {:induction false} ListingSize(keys: seq<Text>, codes: set<Text>)
    requires Distinct(keys) && forall k :: k in keys <==> k in codes
    ensures |keys| == |codes|
  {
    if keys != [] {
      var rest := keys[1..];
      assert keys == [keys[0]] + rest;
      forall k ensures k in rest <==> k in codes - {keys[0]} {
        assert k in rest ==> k in keys;
      }
      ListingSize(rest, codes - {keys[0]});
    } else {
      assert codes == {};
    }
  }

  /**
   Whatever order the keys were laid out in, the bytes of a file that could be written
   parse back to the same key set, and every code reads back its own items.
   */
  lemma RoundTrip(keys: seq<Text>, domains: Domains)
    requires Distinct(keys) && (forall k :: k in keys <==> k in domains)
    requires InMemory(FileBytes(keys, domains), domains)
    ensures var m := ParseMetadata(FileBytes(keys, domains));
            && m.Ok? && m.value.start == |FileHead(keys, domains)|
            && m.value.index.Keys == domains.Keys && m.value.length.Keys == domains.Keys
            && forall code :: code in domains ==>
                 && m.value.index[code] == Offset(keys, domains, code)
                 && ReadCode(FileBytes(keys, domains), m.value, code) == Ok(domains[code])
  {
    ListingSize(keys, domains.Keys);
    assert |domains| == |domains.Keys|;
    MetadataRoundTrip(keys, domains);
    hide ParseMetadata, FileBytes, FileHead, Indexed, ReadCode;
    var m := ParseMetadata(FileBytes(keys, domains)).value;
    forall k
      ensures (k in m.index <==> k in domains) && (k in m.length <==> k in domains)
      ensures k in domains ==> m.index[k] == Offset(keys, domains, k) && m.length[k] == |domains[k]|
    {
      IndexedAt(keys, domains, 0, Entries(map[], map[]), k);
    }
    assert m.index.Keys == domains.Keys && m.length.Keys == domains.Keys;
    forall code | code in domains ensures ReadCode(FileBytes(keys, domains), m, code) == Ok(domains[code]) {
      CodeRoundTrip(keys, domains, m, code);
    }
  }

  /**
   The layout by an example: version and number of codes, the code's name, its offset and its number
   of items, then the item with its kind and value.
   */
  lemma LayoutBytes()
    ensures FileBytes([[99, 110]], map[[99, 110] := [Item(2, [97])]]) == [0, 1, 2, 99, 110, 0, 1, 2, 1, 97]
  {
    var items, keys: seq<Text> := [Item(2, [97])], [[99, 110]];
    var domains := map[[99, 110] := items];
    assert items[1..] == [] && keys[1..] == [];
    assert Block(items) == [2, 1, 97];
    assert IndexEntries(keys, domains, 0) == [2, 99, 110, 0, 1];
  }

  // ----- sorted keys -----

  /** Byte-wise lexicographic order. */
  predicate Below(a: Text, b: Text) {
    if a == [] then b != []
    else b != [] && (a[0] < b[0] || (a[0] == b[0] && Below(a[1..], b[1..])))
  }

  lemma {:induction false} BelowOrders(a: Text, b: Text)
    ensures Below(a, b) || Below(b, a) || a == b
    ensures !(Below(a, b) && Below(b, a))
    ensures a == b ==> !Below(a, b)
  {
    if a != [] && b != [] {
      BelowOrders(a[1..], b[1..]);
      assert a == [a[0]] + a[1..] && b == [b[0]] + b[1..];
    }
  }

  lemma {:induction false} BelowTransitive(a: Text, b: Text, c: Text)
    requires Below(a, b) && Below(b, c)
    ensures Below(a, c)
  {
    if a != [] && a[0] == b[0] && b[0] == c[0] {
      BelowTransitive(a[1..], b[1..], c[1..]);
    }
  }

  ghost predicate Sorted(keys: seq<Text>) {
    forall i, j :: 0 <= i < j < |keys| ==> Below(keys[i], keys[j])
  }

  lemma SortedIsDistinct(keys: seq<Text>)
    requires Sorted(keys)
    ensures Distinct(keys)
  {
    forall i, j | 0 <= i < j < |keys| ensures keys[i] != keys[j] {
      BelowOrders(keys[i], keys[i]);
    }
  }

  lemma SameEmptiness(a: seq<Text>, b: seq<Text>)
    requires forall k :: k in a <==> k in b
    ensures a == [] <==> b == []
  {
    assert a != [] ==> a[0] in b;
    assert b != [] ==> b[0] in a;
  }

  /** A set has only one sorted listing, so the file does not depend on map iteration order. */
  lemma {:induction false} SortedOnce(a: seq<Text>, b: seq<Text>)
    requires Sorted(a) && Sorted(b) && forall k :: k in a <==> k in b
    ensures a == b
  {
    SameEmptiness(a, b);
    if a != [] {
      assert a[0] in b && b[0] in a;
      var i :| 0 <= i < |b| && b[i] == a[0];
      var j :| 0 <= j < |a| && a[j] == b[0];
      BelowOrders(a[0], b[0]);
      assert a[0] == b[0];
      forall k ensures k in a[1..] <==> k in b[1..] {
        BelowOrders(a[0], a[0]);
        assert a[0] !in a[1..] && b[0] !in b[1..];
        assert k in a <==> k == a[0] || k in a[1..];
        assert k in b <==> k == b[0] || k in b[1..];
      }
      SortedOnce(a[1..], b[1..]);
    }
  }

  method Insert(keys: seq<Text>, k: Text) returns (r: seq<Text>)
    requires Sorted(keys) && k !in keys
    ensures Sorted(r) && forall x :: x in r <==> x in keys || x == k
  {
    var i := 0;
    while i < |keys| && Below(keys[i], k)
      invariant 0 <= i <= |keys|
      invariant forall j :: 0 <= j < i ==> Below(keys[j], k)
    {
      i := i + 1;
    }
    r := keys[..i] + [k] + keys[i..];
    assert keys == keys[..i] + keys[i..];
    forall j | i <= j < |keys| ensures Below(k, keys[j]) {
      BelowOrders(keys[i], k);
      if j > i {
        BelowTransitive(k, keys[i], keys[j]);
      }
    }
  }

  method SortKeys(domains: Domains) returns (keys: seq<Text>)
    ensures Sorted(keys) && forall k :: k in keys <==> k in domains
  {
    keys := [];
    var left := domains.Keys;
    while left != {}
      invariant left <= domains.Keys
      invariant Sorted(keys) && forall k :: k in keys <==> k in domains && k !in left
      decreases |left|
    {
      var k :| k in left;
      left := left - {k};
      keys := Insert(keys, k);
    }
  }

  // ----- the writer -----

  lemma BlockStep(items: seq<Item>, before: Text)
    requires items != []
    ensures before + Block(items) == before + [items[0].kind] + PutString(items[0].value) + Block(items[1..])
  {
    hide PutString;
    Associate(before, [items[0].kind], PutString(items[0].value));
    Associate(before, PutItem(items[0]), Block(items[1..]));
  }

  method WriteBlock(items: seq<Item>) returns (out: Text)
    ensures out == Block(items)
  {
    hide PutString, Block;
    out := [];
    assert items[0..] == items && [] + Block(items) == Block(items);
    for i := 0 to |items|
      invariant out + Block(items[i..]) == Block(items)
    {
      assert items[i..][1..] == items[i + 1..];
      BlockStep(items[i..], out);
      out := out + [items[i].kind];
      out := out + PutString(items[i].value);
    }
    NoBlock();
    assert items[|items|..] == [] && out + [] == out;
  }

  lemma NoBlock()
    ensures Block([]) == []
  {
  }

  lemma ContentStep(keys: seq<Text>, domains: Domains, i: nat)
    requires i < |keys| && forall k :: k in keys ==> k in domains
    ensures Content(keys[..i + 1], domains) == Content(keys[..i], domains) + Block(domains[keys[i]])
  {
    assert keys[..i + 1] == keys[..i] + [keys[i]];
    ContentAppend(keys[..i], keys[i], domains);
  }

  lemma {:induction false} ContentAppend(keys: seq<Text>, k: Text, domains: Domains)
    requires k in domains && forall k :: k in keys ==> k in domains
    ensures Content(keys + [k], domains) == Content(keys, domains) + Block(domains[k])
  {
    hide Block;
    if keys == [] {
      assert Content([k], domains) == Block(domains[k]) + Content([k][1..], domains);
    } else {
      assert (keys + [k])[1..] == keys[1..] + [k];
      ContentAppend(keys[1..], k, domains);
    }
  }

  method WriteContent(keys: seq<Text>, domains: Domains) returns (content: Text, index: map<Text, nat>)
    requires Distinct(keys) && forall k :: k in keys ==> k in domains
    ensures content == Content(keys, domains)
    ensures forall i :: 0 <= i < |keys| ==> keys[i] in index && index[keys[i]] == |Content(keys[..i], domains)|
  {
    content, index := [], map[];
    for i := 0 to |keys|
      invariant content == Content(keys[..i], domains)
      invariant forall j :: 0 <= j < i ==> keys[j] in index && index[keys[j]] == |Content(keys[..j], domains)|
    {
      ContentStep(keys, domains, i);
      index := index[keys[i] := |content|];
      var block := WriteBlock(domains[keys[i]]);
      content := content + block;
    }
    assert keys[..|keys|] == keys;
  }

  lemma IndexStep(keys: seq<Text>, domains: Domains, offset: nat, before: Text)
    requires keys != [] && forall k :: k in keys ==> k in domains
    ensures before + IndexEntries(keys, domains, offset)
         == (before + PutEntry(Entry(keys[0], offset, |domains[keys[0]]|)))
          + IndexEntries(keys[1..], domains, offset + |Block(domains[keys[0]])|)
  {
    hide PutEntry, Block;
    var items := domains[keys[0]];
    Associate(before, PutEntry(Entry(keys[0], offset, |items|)),
        IndexEntries(keys[1..], domains, offset + |Block(items)|));
  }

  method WriteIndex(keys: seq<Text>, domains: Domains, index: map<Text, nat>) returns (out: Text)
    requires forall k :: k in keys ==> k in domains
    requires forall i :: 0 <= i < |keys| ==> keys[i] in index && index[keys[i]] == |Content(keys[..i], domains)|
    ensures out == IndexEntries(keys, domains, 0)
  {
    hide PutEntry, Block;
    out := [];
    for i := 0 to |keys|
      invariant out + IndexEntries(keys[i..], domains, |Content(keys[..i], domains)|) == IndexEntries(keys, domains, 0)
    {
      ContentStep(keys, domains, i);
      assert keys[i..][1..] == keys[i + 1..];
      IndexStep(keys[i..], domains, index[keys[i]], out);
      out := out + PutEntry(Entry(keys[i], index[keys[i]], |domains[keys[i]]|));
    }
  }

  ghost predicate SortedListing(keys: seq<Text>, domains: Domains) {
    Sorted(keys) && forall k :: k in keys <==> k in domains
  }

  /** The bytes written are those of the one sorted listing of the codes. */
  method Write(domains: Domains) returns (out: Text, keys: seq<Text>)
    ensures SortedListing(keys, domains) && out == FileBytes(keys, domains)
    ensures forall other :: SortedListing(other, domains) ==> other == keys
  {
    keys := SortKeys(domains);
    SortedIsDistinct(keys);
    var content, index := WriteContent(keys, domains);
    var entries := WriteIndex(keys, domains, index);
    out := [0] + PutUvarint(|keys|) + entries + content;
    forall other | SortedListing(other, domains) ensures other == keys {
      SortedOnce(other, keys);
    }
  }

  // ----- the reader -----

  function Scaled(p: Parsed<nat>, x: nat, scale: nat): Parsed<nat> {
    match p
    case Failed(e) => Failed(e)
    case Got(v, rest) => Got(x + scale * v, rest)
  }

  lemma ScaledStart(p: Parsed<nat>)
    ensures Scaled(p, 0, 1) == p
  {
  }

  lemma Distribute(scale: nat, a: nat, v: nat)
    ensures scale * (a + 128 * v) == scale * a + scale * 128 * v
  {
    assert scale * (128 * v) == scale * 128 * v;
  }

  /** What one more byte does to a partly read varint. */
  lemma ScaledStep(s: Text, i: nat, x: nat, scale: nat)
    requires i < 10
    ensures Scaled(TakeUvarint(s, i), x, scale) ==
              if s == [] then Failed(if i > 0 then Truncated else EndOfInput)
              else if s[0] >= 128 then Scaled(TakeUvarint(s[1..], i + 1), x + scale * (s[0] - 128), scale * 128)
              else if i == 9 && s[0] > 1 then Failed(VarintOverflow)
              else Got(x + scale * s[0], s[1..])
  {
    if s != [] && s[0] >= 128 {
      var next := TakeUvarint(s[1..], i + 1);
      if next.Got? {
        Distribute(scale, s[0] - 128, next.value);
      }
    }
  }

  /**
   A buffered reader over a file, which reads ahead by whatever amount the file hands
   out. While `counting`, `count` totals the bytes the file handed out. `ahead` is
   what is still to be read: the buffer and the rest of the file.
   */
  class BufferedReader {
    const file: Text
    var filePos: nat
    var buffer: Text
    var counting: bool
    var count: nat
    ghost var ahead: Text

    ghost predicate Valid()
      reads this
    {
      && |buffer| <= filePos && (buffer != [] ==> filePos <= |file|)
      && ahead == From(file, filePos - |buffer|) && buffer <= ahead
      && (counting ==> count == filePos <= |file|)
    }

    constructor (file: Text)
      ensures Valid() && this.file == file && counting && ahead == file
    {
      this.file := file;
      filePos, buffer, counting, count, ahead := 0, [], true, 0, file;
    }

    /** Seeks the file and empties the buffer; from here on the file is read past the counter. */
    method Seek(position: nat)
      modifies this
      ensures Valid() && ahead == From(file, position)
    {
      filePos, buffer, counting, ahead := position, [], false, From(file, position);
    }

    method Fill()
      requires Valid() && buffer == [] && filePos < |file|
      modifies this
      ensures Valid() && buffer != [] && ahead == old(ahead) && counting == old(counting)
    {
      var n :| 1 <= n <= |file| - filePos;
      buffer, filePos := file[filePos..filePos + n], filePos + n;
      if counting {
        count := count + n;
      }
    }

    /** Bytes handed out less bytes still buffered: what has been consumed so far. */
    method Consumed() returns (n: nat)
      requires Valid() && counting
      ensures n == |file| - |ahead|
    {
      n := count - |buffer|;
    }

    method ReadByte() returns (r: Result<byte, ReadError>)
      requires Valid()
      modifies this
      ensures Valid() && counting == old(counting)
      ensures r == if old(ahead) == [] then Err(EndOfInput) else Ok(old(ahead)[0])
      ensures ahead == if old(ahead) == [] then [] else old(ahead)[1..]
    {
      if buffer == [] {
        if filePos >= |file| {
          return Err(EndOfInput);
        }
        Fill();
      }
      r := Ok(buffer[0]);
      buffer, ahead := buffer[1..], ahead[1..];
    }

    /** The byte at place `i` of a varint read up to there; the result if it is the last one, or fails. */
    method ReadVarintByte(i: nat, x: nat, scale: nat) returns (r: Option<Result<nat, ReadError>>, x': nat, scale': nat)
      requires Valid() && i < 10
      modifies this
      ensures Valid() && counting == old(counting)
      ensures r.Some? ==> Returns(Scaled(TakeUvarint(old(ahead), i), x, scale), r.value, ahead)
      ensures r.None? ==> Scaled(TakeUvarint(ahead, i + 1), x', scale') == Scaled(TakeUvarint(old(ahead), i), x, scale)
    {
      hide TakeUvarint, Scaled;
      x', scale' := x, scale;
      ScaledStep(ahead, i, x, scale);
      var b := ReadByte();
      if b.Err? {
        return Some(Err(if i > 0 then Truncated else EndOfInput)), x', scale';
      }
      if b.value < 128 {
        if i == 9 && b.value > 1 {
          return Some(Err(VarintOverflow)), x', scale';
        }
        return Some(Ok(x + scale * b.value)), x', scale';
      }
      return None, x + scale * (b.value - 128), scale * 128;
    }

    method ReadUvarint() returns (r: Result<nat, ReadError>)
      requires Valid()
      modifies this
      ensures Valid() && counting == old(counting)
      ensures Returns(TakeUvarint(old(ahead), 0), r, ahead)
    {
      ScaledStart(TakeUvarint(ahead, 0));
      hide TakeUvarint, Scaled;
      var x: nat, scale: nat := 0, 1;
      for i := 0 to 10
        invariant Valid() && counting == old(counting)
        invariant Scaled(TakeUvarint(ahead, i), x, scale) == TakeUvarint(old(ahead), 0)
      {
        var done;
        done, x, scale := ReadVarintByte(i, x, scale);
        if done.Some? {
          return done.value;
        }
      }
      return Err(VarintOverflow);
    }

    method ReadString() returns (r: Result<Text, ReadError>)
      requires Valid()
      modifies this
      ensures Valid() && counting == old(counting)
      ensures Returns(TakeString(old(ahead)), r, ahead)
    {
      var length := ReadUvarint();
      if length.Err? {
        return Err(length.error);
      }
      if length.value > MAX_ALLOCATION {
        return Err(TooLarge);
      }
      r := ReadBytes(length.value);
    }

    method ReadBytes(n: nat) returns (r: Result<Text, ReadError>)
      requires Valid()
      modifies this
      ensures Valid() && counting == old(counting)
      ensures n <= |old(ahead)| ==> r == Ok(old(ahead)[..n]) && ahead == old(ahead)[n..]
      ensures n > |old(ahead)| ==> r == Err(EndOfInput)
    {
      var bytes: Text := [];
      for i := 0 to n
        invariant Valid() && counting == old(counting)
        invariant i <= |old(ahead)| && bytes == old(ahead)[..i] && ahead == old(ahead)[i..]
      {
        var b := ReadByte();
        if b.Err? {
          return Err(b.error);
        }
        bytes := bytes + [b.value];
      }
      return Ok(bytes);
    }

    method ReadEntry() returns (r: Result<Entry, ReadError>)
      requires Valid()
      modifies this
      ensures Valid() && counting == old(counting)
      ensures Returns(TakeEntry(old(ahead)), r, ahead)
    {
      var code := ReadString();
      if code.Err? {
        return Err(code.error);
      }
      var codeIndex := ReadUvarint();
      if codeIndex.Err? {
        return Err(codeIndex.error);
      }
      var codeLength := ReadUvarint();
      if codeLength.Err? {
        return Err(codeLength.error);
      }
      return Ok(Entry(code.value, codeIndex.value, codeLength.value));
    }

    method ReadItem() returns (r: Result<Item, ReadError>)
      requires Valid()
      modifies this
      ensures Valid()
      ensures Returns(TakeItem(old(ahead)), r, ahead)
    {
      var kind := ReadByte();
      if kind.Err? {
        return Err(kind.error);
      }
      var value := ReadString();
      if value.Err? {
        return Err(value.error);
      }
      return Ok(Item(kind.value, value.value));
    }
  }

  class Reader {
    const source: BufferedReader
    var metadataIndex: nat
    var domainIndex: map<Text, int>
    var domainLength: map<Text, int>

    ghost predicate Valid()
      reads this, source
    {
      source.Valid() && domainIndex.Keys == domainLength.Keys
    }

    ghost function Meta(): Metadata
      reads this
    {
      Metadata(domainIndex, domainLength, metadataIndex)
    }

    constructor (file: Text)
      ensures Valid() && fresh(source) && source.file == file && source.counting && source.ahead == file
    {
      source := new BufferedReader(file);
      metadataIndex, domainIndex, domainLength := 0, map[], map[];
    }

    /** Parses the index; the block area starts at the bytes handed out less the bytes still buffered. */
    method ReadMetadata() returns (failure: Option<GeositeError>)
      requires Valid() && source.counting && source.ahead == source.file
      modifies this, source
      ensures Valid()
      ensures failure == None ==> ParseMetadata(source.file) == Ok(Meta())
      ensures failure.Some? ==> ParseMetadata(source.file) == Err(failure.value)
    {
      hide ParseMetadata, From;
      var r := ParseHead();
      if r.Err? {
        return Some(r.error);
      }
      domainIndex, domainLength := r.value.index, r.value.length;
      metadataIndex := source.Consumed();
      return None;
    }

    method ParseHead() returns (r: Result<Entries, GeositeError>)
      requires source.Valid() && source.ahead == source.file
      modifies source
      ensures source.Valid() && source.counting == old(source.counting)
      ensures r.Ok? ==>
                && |source.ahead| < |source.file| && r.value.index.Keys == r.value.length.Keys
                && ParseMetadata(source.file)
                == Ok(Metadata(r.value.index, r.value.length, |source.file| - |source.ahead|))
      ensures r.Err? ==> ParseMetadata(source.file) == Err(r.error)
    {
      hide *;
      MetadataFailures(source.file);
      var version := source.ReadByte();
      if version.Err? {
        return Err(BadInput(version.error));
      }
      if version.value != 0 {
        return Err(UnknownVersion);
      }
      r := ReadIndex();
      if r.Ok? {
        MetadataFromIndex(source.file, r.value, source.ahead);
      }
    }

    method ReadIndex() returns (r: Result<Entries, GeositeError>)
      requires source.Valid()
      modifies source
      ensures source.Valid() && source.counting == old(source.counting)
      ensures match TakeIndex(old(source.ahead))
              case Ok((entries, after)) => r == Ok(entries) && source.ahead == after
              case Err(e) => r == Err(e)
    {
      hide TakeUvarint, TakeEntries;
      var entryLength := source.ReadUvarint();
      if entryLength.Err? {
        return Err(BadInput(entryLength.error));
      }
      if entryLength.value * STRING_SIZE > MAX_ALLOCATION {
        return Err(BadLength);
      }
      r := ReadEntries(entryLength.value);
    }

    method ReadEntries(n: nat) returns (r: Result<Entries, GeositeError>)
      requires source.Valid()
      modifies source
      ensures source.Valid() && source.counting == old(source.counting)
      ensures match TakeEntries(old(source.ahead), n, Entries(map[], map[]))
              case Got(entries, after) => r == Ok(entries) && source.ahead == after
              case Failed(e) => r == Err(BadInput(e))
    {
      hide TakeEntry;
      var entries := Entries(map[], map[]);
      for i := 0 to n
        invariant source.Valid() && source.counting == old(source.counting)
        invariant TakeEntries(source.ahead, n - i, entries) == TakeEntries(old(source.ahead), n, Entries(map[], map[]))
      {
        var entry := source.ReadEntry();
        if entry.Err? {
          return Err(BadInput(entry.error));
        }
        entries := entries.Add(entry.value);
      }
      return Ok(entries);
    }

    /** Reads one code, from any earlier state of the buffer, any number of times. */
    method Read(code: Text) returns (r: Result<seq<Item>, GeositeError>)
      requires Valid()
      modifies source
      ensures Valid() && r == ReadCode(source.file, Meta(), code)
      ensures r == Err(UnknownCode) <==> code !in domainIndex
      ensures r.Ok? ==> |r.value| == domainLength[code]
    {
      hide TakeItems, ToInt;
      ReadExactly(source.file, Meta(), code);
      if code !in domainIndex {
        return Err(UnknownCode);
      }
      var position := ToInt((metadataIndex + domainIndex[code]) % TWO_64);
      if position < 0 {
        return Err(BadSeek);
      }
      source.Seek(position);
      if domainLength[code] < 0 || domainLength[code] * ITEM_SIZE > MAX_ALLOCATION {
        return Err(BadLength);
      }
      r := ReadItems(domainLength[code]);
    }

    method ReadItems(n: nat) returns (r: Result<seq<Item>, GeositeError>)
      requires source.Valid()
      modifies source
      ensures source.Valid()
      ensures match TakeItems(old(source.ahead), n)
              case Failed(e) => r == Err(BadInput(e))
              case Got(items, _) => r == Ok(items)
    {
      var items: seq<Item> := [];
      PrefixedMore([], [], TakeItems(source.ahead, n));
      for i := 0 to n
        invariant source.Valid()
        invariant Prefixed(items, TakeItems(source.ahead, n - i)) == TakeItems(old(source.ahead), n)
      {
        var item := source.ReadItem();
        if item.Err? {
          return Err(BadInput(item.error));
        }
        PrefixedMore(items, [item.value], TakeItems(source.ahead, n - i - 1));
        items := items + [item.value];
      }
      assert items + [] == items;
      return Ok(items);
    }
  }

  lemma PrefixedMore(a: seq<Item>, b: seq<Item>, p: Parsed<seq<Item>>)
    ensures Prefixed(a, Prefixed(b, p)) == Prefixed(a + b, p)
    ensures Prefixed([], p) == p
  {
    if p.Got? {
      assert a + (b + p.value) == (a + b) + p.value;
      assert [] + p.value == p.value;
    }
  }

  /** Opening the written bytes and reading any code gives back exactly what was written. */
  method OpenWritten(domains: Domains) returns (reader: Reader, failure: Option<GeositeError>)
    ensures fresh(reader) && fresh(reader.source) && reader.Valid()
    ensures exists keys :: SortedListing(keys, domains) && reader.source.file == FileBytes(keys, domains)
    ensures InMemory(reader.source.file, domains) ==>
              && failure == None && reader.domainIndex.Keys == domains.Keys
              && forall code :: ReadCode(reader.source.file, reader.Meta(), code)
                   == if code in domains then Ok(domains[code]) else Err(UnknownCode)
  {
    var bytes, keys := Write(domains);
    SortedIsDistinct(keys);
    if InMemory(bytes, domains) {
      RoundTrip(keys, domains);
    }
    reader := new Reader(bytes);
    failure := reader.ReadMetadata();
  }
}
