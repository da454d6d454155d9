/** Version numbers: parsing, the two ways of printing, and the order between them. */
module BadVersion {
  import opened Integers
  import opened Sequences

  const MAX: int64 := 0x7fff_ffff_ffff_ffff
  const MIN: int64 := -0x8000_0000_0000_0000

  datatype Version = Version(major: int64, minor: int64, patch: int64, commit: string, identifier: string,
      preRelease: int64)

  // ----- text -----

  function Digit(d: nat): char
    requires d < 10
  {
    "0123456789"[d]
  }

  predicate IsDigit(c: char) {
    '0' <= c <= '9'
  }

  predicate AllDigits(s: string) {
    forall c :: c in s ==> IsDigit(c)
  }

  function Show(n: nat): (s: string)
    ensures |s| > 0 && AllDigits(s)
  {
    if n < 10 then [Digit(n)] else Show(n / 10) + [Digit(n % 10)]
  }

  function ShowInt(n: int): string {
    if n < 0 then "-" + Show(-n) else Show(n)
  }

  function DigitValue(c: char): nat
    requires IsDigit(c)
  {
    c as int - '0' as int
  }

  function Value(s: string): nat
    requires AllDigits(s)
  {
    if s == "" then 0
    else
      assert s[|s| - 1] in s;
      10 * Value(s[..|s| - 1]) + DigitValue(s[|s| - 1])
  }

  lemma {:induction false} ValueOfShow(n: nat)
    ensures Value(Show(n)) == n
  {
    if n >= 10 {
      ValueOfShow(n / 10);
      assert Show(n)[..|Show(n)| - 1] == Show(n / 10);
    } else {
      assert [Digit(n)][..0] == "";
    }
  }

  /**
   Decimal conversion with an optional sign: zero when the text is not a number, the nearest bound when it is
   out of range.
   */
  function Atoi(s: string): int64 {
    var signed := s != "" && (s[0] == '+' || s[0] == '-');
    var digits := if signed then s[1..] else s;
    if digits == "" || !AllDigits(digits) then 0
    else
      var n: int := if signed && s[0] == '-' then -(Value(digits) as int) else Value(digits);
      if n > MAX then MAX else if n < MIN then MIN else n
  }

  lemma AtoiOfShow(n: int64)
    requires n >= 0
    ensures Atoi(Show(n)) == n
  {
    ValueOfShow(n);
    assert IsDigit(Show(n)[0]);
  }

  /** A sign may stand before the digits, and what is out of range becomes the nearest bound. */
  lemma AtoiOfSigned(n: nat)
    ensures Atoi(Show(n)) == Atoi("+" + Show(n)) == if n <= 0x7fff_ffff_ffff_ffff then n else 0x7fff_ffff_ffff_ffff
    ensures Atoi("-" + Show(n)) == if n <= 0x8000_0000_0000_0000 then -(n as int) else -0x8000_0000_0000_0000
  {
    ValueOfShow(n);
    hide Show, Value;
    var digits := Show(n);
    assert IsDigit(digits[0]);
    assert ("+" + digits)[1..] == digits && ("-" + digits)[1..] == digits;
  }

  /** Whatever holds anything else than digits behind its sign is no number. */
  lemma AtoiOfOther(s: string)
    requires s == "" || s == "+" || s == "-" || exists i :: 0 < i < |s| && !IsDigit(s[i])
    ensures Atoi(s) == 0
  {
    if i :| 0 < i < |s| && !IsDigit(s[i]) {
      assert s[i] in s && s[i] in s[1..] by {
        assert s[1..][i - 1] == s[i];
      }
    }
  }

  predicate HasPrefix(s: string, prefix: string) {
    prefix <= s
  }

  function IndexOf(s: string, c: char): (i: nat)
    requires c in s
    ensures i < |s| && s[i] == c && c !in s[..i]
  {
    if s[0] == c then 0
    else
      assert c in s[1..];
      assert s[1..][..IndexOf(s[1..], c)] == s[1..][..IndexOf(s[1..], c)];
      var i := IndexOf(s[1..], c) + 1;
      assert s[..i] == [s[0]] + s[1..][..i - 1];
      i
  }

  function Split(s: string, c: char): (parts: seq<string>)
    ensures |parts| >= 1 && (c in s <==> |parts| >= 2)
    ensures c !in parts[0] && (c !in s ==> parts == [s])
    decreases |s|
  {
    if c !in s then [s]
    else
      var i := IndexOf(s, c);
      [s[..i]] + Split(s[i + 1..], c)
  }

  lemma {:induction false} IndexIsThere(a: string, b: string, c: char)
    requires c !in a
    ensures IndexOf(a + [c] + b, c) == |a|
  {
    if a != "" {
      assert (a + [c] + b)[1..] == a[1..] + [c] + b;
      IndexIsThere(a[1..], b, c);
    }
  }

  /** The text up to the first separator is the first part, the rest is split on. */
  lemma SplitAt(a: string, b: string, c: char)
    requires c !in a
    ensures Split(a + [c] + b, c) == [a] + Split(b, c)
  {
    hide IndexOf;
    IndexIsThere(a, b, c);
    var s := a + [c] + b;
    assert s[|a|] == c && s[..|a|] == a && s[|a| + 1..] == b;
  }

  /** Three parts joined by dots. */
  lemma SplitThree(a: string, b: string, c: string)
    requires '.' !in a && '.' !in b && '.' !in c
    ensures Split(a + "." + b + "." + c, '.') == [a, b, c]
  {
    hide Split;
    assert a + "." + b + "." + c == a + "." + (b + "." + c);
    SplitAt(a, b + "." + c, '.');
    SplitAt(b, c, '.');
  }

  lemma SplitTwo(a: string, b: string)
    requires '.' !in a && '.' !in b
    ensures Split(a + "." + b, '.') == [a, b]
  {
    hide Split;
    SplitAt(a, b, '.');
  }

  // ----- printing -----

  function Core(v: Version): string {
    ShowInt(v.major) + "." + ShowInt(v.minor) + "." + ShowInt(v.patch)
  }

  function String(v: Version): string {
    if v.identifier == "" then Core(v) else Core(v) + "-" + (v.identifier + "." + ShowInt(v.preRelease))
  }

  function BadCore(v: Version): string {
    ShowInt(v.major) + "." + (ShowInt(v.minor) + if v.patch > 0 then "." + ShowInt(v.patch) else "")
  }

  function BadString(v: Version): string {
    if v.identifier == "" then BadCore(v)
    else BadCore(v) + "-" + (v.identifier + if v.preRelease > 0 then ShowInt(v.preRelease) else "")
  }

  // ----- parsing -----

  datatype Tail = Tail(commit: string, identifier: string, preRelease: int64)

  function ParseTail(identifier: string): Tail {
    if '.' in identifier then
      var parts := Split(identifier, '.');
      Tail("", parts[0], Atoi(parts[1]))
    else if HasPrefix(identifier, "alpha") then Tail("", "alpha", Atoi(identifier[5..]))
    else if HasPrefix(identifier, "beta") then Tail("", "beta", Atoi(identifier[4..]))
    else Tail(identifier, "", 0)
  }

  function Element(elements: seq<string>, i: nat): int64 {
    if i < |elements| then Atoi(elements[i]) else 0
  }

  function Parse(name: string): Version {
    var text := if HasPrefix(name, "v") then name[1..] else name;
    var dashed := Split(text, '-');
    var tail := if |dashed| >= 2 then ParseTail(dashed[1]) else Tail("", "", 0);
    var elements := Split(dashed[0], '.');
    Version(Element(elements, 0), Element(elements, 1), Element(elements, 2), tail.commit, tail.identifier,
        tail.preRelease)
  }

  /** The record is filled in step by step. */
  method ParseVersion(versionName: string) returns (version: Version)
    ensures version == Parse(versionName)
  {
    version := Version(0, 0, 0, "", "", 0);
    var name := versionName;
    if HasPrefix(name, "v") {
      name := name[1..];
    }
    if '-' in name {
      var parts := Split(name, '-');
      name := parts[0];
      var identifier := parts[1];
      if '.' in identifier {
        var identifierParts := Split(identifier, '.');
        version := version.(identifier := identifierParts[0]);
        if |identifierParts| >= 2 {
          version := version.(preRelease := Atoi(identifierParts[1]));
        }
      } else if HasPrefix(identifier, "alpha") {
        version := version.(identifier := "alpha", preRelease := Atoi(identifier[5..]));
      } else if HasPrefix(identifier, "beta") {
        version := version.(identifier := "beta", preRelease := Atoi(identifier[4..]));
      } else {
        version := version.(commit := identifier);
      }
    }
    var versionElements := Split(name, '.');
    if |versionElements| >= 1 {
      version := version.(major := Atoi(versionElements[0]));
    }
    if |versionElements| >= 2 {
      version := version.(minor := Atoi(versionElements[1]));
    }
    if |versionElements| >= 3 {
      version := version.(patch := Atoi(versionElements[2]));
    }
  }

  // ----- round trips -----

  lemma NoSeparators(n: nat)
    ensures Clean(Show(n))
  {
  }

  /** One "v" before the number makes no difference. */
  lemma ParsesWithoutV(name: string)
    requires name == "" || name[0] != 'v'
    ensures Parse("v" + name) == Parse(name)
  {
    assert ("v" + name)[1..] == name && ("v" + name)[0] == 'v';
    hide Split, ParseTail, Element;
  }

  /** Behind the dash, text that has no dot and does not begin like a pre-release is a commit. */
  lemma ParsesCommit(a: string, x: string)
    requires '-' !in a && '-' !in x && '.' !in x && !("alpha" <= x) && !("beta" <= x)
    requires a != "" && a[0] != 'v'
    ensures Parse(a + "-" + x) == Parse(a).(commit := x, identifier := "", preRelease := 0)
  {
    SplitAt(a, x, '-');
    assert Split(a, '-') == [a] && Split(x, '-') == [x];
    assert (a + "-" + x)[0] == a[0];
    hide Split, Element;
  }

  /** What comes before the first dash and what comes after it, which is all that is parsed. */
  lemma ParseParts(a: string, b: string)
    requires '-' !in a && !HasPrefix(a + "-" + b, "v")
    ensures var p, e, tail := Parse(a + "-" + b), Split(a, '.'), ParseTail(Split(b, '-')[0]);
            p == Version(Element(e, 0), Element(e, 1), Element(e, 2), tail.commit, tail.identifier, tail.preRelease)
  {
    SplitAt(a, b, '-');
  }

  lemma ParsePlain(a: string)
    requires '-' !in a && !HasPrefix(a, "v")
    ensures var p, e := Parse(a), Split(a, '.');
            p == Version(Element(e, 0), Element(e, 1), Element(e, 2), "", "", 0)
  {
  }

  /** A parsed identifier holds neither separator. */
  lemma IdentifierIsClean(x: string)
    requires '-' !in x
    ensures '-' !in ParseTail(x).identifier && '.' !in ParseTail(x).identifier
  {
    if '.' in x {
      var i := IndexOf(x, '.');
      assert Split(x, '.')[0] == x[..i];
    }
  }

  predicate Natural(v: Version) {
    v.major >= 0 && v.minor >= 0 && v.patch >= 0
  }

  predicate Clean(identifier: string) {
    '-' !in identifier && '.' !in identifier
  }

  lemma StartsWithoutV(n: int64, rest: string)
    ensures !HasPrefix(ShowInt(n) + rest, "v")
  {
    if n >= 0 {
      assert IsDigit(Show(n)[0]);
    }
    assert (ShowInt(n) + rest)[0] == ShowInt(n)[0];
  }

  lemma CoreElements(v: Version)
    requires Natural(v)
    ensures '-' !in Core(v)
    ensures var e := Split(Core(v), '.');
            Element(e, 0) == v.major && Element(e, 1) == v.minor && Element(e, 2) == v.patch
  {
    hide Show, Split, Atoi, AllDigits;
    NoSeparators(v.major);
    NoSeparators(v.minor);
    NoSeparators(v.patch);
    SplitThree(Show(v.major), Show(v.minor), Show(v.patch));
    AtoiOfShow(v.major);
    AtoiOfShow(v.minor);
    AtoiOfShow(v.patch);
  }

  /** The sign and the rest of a negative number. */
  lemma ShowNegative(n: int)
    requires n < 0
    ensures ShowInt(n) == "-" + Show(-n) && Atoi("") == 0
  {
  }

  lemma Regroup(a: string, b: string, c: string, d: string, e: string)
    ensures a + b + c + d + e == a + (b + c + d + e)
  {
  }

  /** What follows the numbers. */
  function TailText(v: Version): string {
    if v.identifier == "" then "" else "-" + (v.identifier + "." + ShowInt(v.preRelease))
  }

  lemma StringParts(v: Version)
    ensures String(v) == Core(v) + TailText(v)
  {
    hide Core;
    if v.identifier == "" {
      assert Core(v) + "" == Core(v);
    } else {
      Associate(Core(v), "-", v.identifier + "." + ShowInt(v.preRelease));
    }
  }

  /** A negative number puts a dash into the core; what stands before it gives at least one of the numbers as zero. */
  lemma NegativeCore(v: Version) returns (a: string, b: string)
    requires !Natural(v)
    ensures String(v) == a + "-" + b && '-' !in a
    ensures var e := Split(a, '.');
            (v.major < 0 && Element(e, 0) == 0) || (v.minor < 0 && Element(e, 1) == 0)
                || (v.patch < 0 && Element(e, 2) == 0)
  {
    hide Show, ShowInt, Split, Atoi, AllDigits, String, TailText;
    StringParts(v);
    var x, y, z, tail := ShowInt(v.major), ShowInt(v.minor), ShowInt(v.patch), TailText(v);
    if v.major < 0 {
      ShowNegative(v.major);
      var m := Show(-(v.major as int));
      a, b := "", m + ("." + y + "." + z) + tail;
      Regroup(x, ".", y, ".", z);
    } else if v.minor < 0 {
      ShowNegative(v.minor);
      PlainNumber(v.major);
      var m := Show(-(v.minor as int));
      a, b := x + "." + "", m + "." + z + tail;
      assert a == x + ".";
      Associate(a, "-", m);
      Regroup(a + "-", m, ".", z, tail);
      SplitTwo(x, "");
    } else {
      ShowNegative(v.patch);
      PlainNumber(v.major);
      PlainNumber(v.minor);
      var m := Show(-(v.patch as int));
      a, b := x + "." + y + "." + "", m + tail;
      assert a == x + "." + y + ".";
      Associate(a, "-", m);
      Associate(a + "-", m, tail);
      SplitThree(x, y, "");
    }
  }

  lemma PlainNumber(n: int)
    requires n >= 0
    ensures Clean(ShowInt(n))
  {
    NoSeparators(n);
  }

  /** Printing and parsing gives the version back exactly for these. */
  predicate Printable(v: Version) {
    && Natural(v) && v.commit == ""
    && if v.identifier == "" then v.preRelease == 0 else Clean(v.identifier) && v.preRelease >= 0
  }

  lemma TailRoundTrip(identifier: string, preRelease: int64)
    requires Clean(identifier)
    ensures var b := identifier + "." + ShowInt(preRelease);
            ParseTail(Split(b, '-')[0]) == Tail("", identifier, if preRelease >= 0 then preRelease else 0)
  {
    hide Show, Split, Atoi, AllDigits;
    var b := identifier + "." + ShowInt(preRelease);
    if preRelease >= 0 {
      NoSeparators(preRelease);
      SplitTwo(identifier, Show(preRelease));
      AtoiOfShow(preRelease);
    } else {
      ShowNegative(preRelease);
      assert b == identifier + "." + "" + "-" + Show(-(preRelease as int));
      SplitAt(identifier + "." + "", Show(-(preRelease as int)), '-');
      SplitTwo(identifier, "");
    }
  }

  lemma StringRoundTrip(v: Version)
    ensures Parse(String(v)) == v <==> Printable(v)
  {
    hide Parse, Core, Split, ParseTail, Element, Show;
    if !Natural(v) {
      var a, b := NegativeCore(v);
      StringStart(v);
      ParseParts(a, b);
    } else {
      CoreElements(v);
      StringStart(v);
      if v.identifier == "" {
        ParsePlain(Core(v));
      } else {
        var b := v.identifier + "." + ShowInt(v.preRelease);
        ParseParts(Core(v), b);
        if Clean(v.identifier) {
          TailRoundTrip(v.identifier, v.preRelease);
        } else {
          IdentifierIsClean(Split(b, '-')[0]);
        }
      }
    }
  }

  lemma StringStart(v: Version)
    ensures !HasPrefix(String(v), "v") && !HasPrefix(BadString(v), "v")
  {
    hide Show;
    StartsWithoutV(v.major, String(v)[|ShowInt(v.major)|..]);
    StartsWithoutV(v.major, BadString(v)[|ShowInt(v.major)|..]);
    assert String(v)[..|ShowInt(v.major)|] == ShowInt(v.major) == BadString(v)[..|ShowInt(v.major)|];
  }

  /** The short form is read back exactly for these: of the identifiers, only alpha and beta. */
  predicate BadPrintable(v: Version) {
    && Natural(v) && v.commit == ""
    && if v.identifier == "" then v.preRelease == 0 else v.identifier in {"alpha", "beta"} && v.preRelease >= 0
  }

  lemma BadCoreElements(v: Version)
    requires v.major >= 0 && v.minor >= 0
    ensures '-' !in BadCore(v)
    ensures var e := Split(BadCore(v), '.');
            Element(e, 0) == v.major && Element(e, 1) == v.minor && Element(e, 2) == if v.patch > 0 then v.patch else 0
  {
    hide Show, Split, Atoi, AllDigits;
    NoSeparators(v.major);
    NoSeparators(v.minor);
    AtoiOfShow(v.major);
    AtoiOfShow(v.minor);
    if v.patch > 0 {
      NoSeparators(v.patch);
      AtoiOfShow(v.patch);
      assert BadCore(v) == Core(v);
      SplitThree(Show(v.major), Show(v.minor), Show(v.patch));
    } else {
      assert BadCore(v) == Show(v.major) + "." + Show(v.minor);
      SplitTwo(Show(v.major), Show(v.minor));
    }
  }

  /** What follows the numbers in the short form. */
  function BadTail(v: Version): string {
    if v.identifier == "" then "" else "-" + (v.identifier + if v.preRelease > 0 then ShowInt(v.preRelease) else "")
  }

  lemma NegativeBadMajor(v: Version) returns (b: string)
    requires v.major < 0
    ensures BadString(v) == "-" + b
  {
    hide Show, AllDigits;
    ShowNegative(v.major);
    b := BadString(v)[1..];
    assert BadString(v)[0] == '-';
  }

  lemma NegativeBadMinor(v: Version) returns (b: string)
    requires v.major >= 0 && v.minor < 0
    ensures BadString(v) == Show(v.major) + "." + "-" + b
  {
    hide Show, AllDigits;
    ShowNegative(v.minor);
    var start, m := Show(v.major) + ".", Show(-(v.minor as int));
    var patch := if v.patch > 0 then "." + ShowInt(v.patch) else "";
    b := m + patch + BadTail(v);
    assert BadCore(v) == start + ("-" + m + patch);
    hide BadString, BadCore, BadTail, ShowInt;
    Regroup(start, "-", m, patch, BadTail(v));
    Associate(start, "-" + m + patch, BadTail(v));
    Associate(start + "-", m, patch);
    Associate(start + "-", m + patch, BadTail(v));
    Associate(start, "-", m);
    Associate(start, "-" + m, patch);
  }

  lemma NegativeBadCore(v: Version) returns (a: string, b: string)
    requires v.major < 0 || v.minor < 0
    ensures BadString(v) == a + "-" + b && '-' !in a
    ensures var e := Split(a, '.'); (v.major < 0 && Element(e, 0) == 0) || (v.minor < 0 && Element(e, 1) == 0)
  {
    hide Show, Split, Atoi, AllDigits, BadString;
    if v.major < 0 {
      ShowNegative(v.major);
      a := "";
      b := NegativeBadMajor(v);
    } else {
      ShowNegative(v.minor);
      NoSeparators(v.major);
      SplitTwo(Show(v.major), "");
      b := NegativeBadMinor(v);
      a := Show(v.major) + ".";
      assert a == Show(v.major) + "." + "";
    }
  }

  lemma BadTailRoundTrip(identifier: string, preRelease: int64)
    requires identifier in {"alpha", "beta"}
    ensures var b := identifier + if preRelease > 0 then ShowInt(preRelease) else "";
            ParseTail(Split(b, '-')[0]) == Tail("", identifier, if preRelease > 0 then preRelease else 0)
  {
    var digits := if preRelease > 0 then Show(preRelease) else "";
    var b := identifier + digits;
    assert '-' !in b && '.' !in b;
    assert b[|identifier|..] == digits;
    assert Atoi(digits) == if preRelease > 0 then preRelease else 0 by {
      if preRelease > 0 {
        AtoiOfShow(preRelease);
      }
    }
    assert Split(b, '-') == [b];
    hide Show, Atoi, Split;
    if identifier == "beta" {
      assert b[0] == 'b';
    }
  }

  /** A tail in the short form that gives back its identifier is one of the two. */
  lemma OnlyTwoTails(identifier: string, digits: string)
    requires AllDigits(digits) && identifier != ""
    requires ParseTail(Split(identifier + digits, '-')[0]).identifier == identifier
    ensures identifier in {"alpha", "beta"}
  {
    var x := Split(identifier + digits, '-')[0];
    IdentifierIsClean(x);
    assert '-' !in identifier + digits && '.' !in identifier + digits;
  }

  lemma BadStringRoundTrip(v: Version)
    ensures Parse(BadString(v)) == v <==> BadPrintable(v)
  {
    hide Parse, BadCore, Split, ParseTail, Element, Show;
    StringStart(v);
    if v.major < 0 || v.minor < 0 {
      var a, b := NegativeBadCore(v);
      ParseParts(a, b);
    } else {
      BadCoreElements(v);
      if v.identifier == "" {
        ParsePlain(BadCore(v));
      } else {
        var digits := if v.preRelease > 0 then ShowInt(v.preRelease) else "";
        ParseParts(BadCore(v), v.identifier + digits);
        if v.identifier in {"alpha", "beta"} {
          BadTailRoundTrip(v.identifier, v.preRelease);
        } else if ParseTail(Split(v.identifier + digits, '-')[0]).identifier == v.identifier {
          OnlyTwoTails(v.identifier, digits);
          assert false;
        }
      }
    }
  }

  // ----- the order -----

  /** The place of an identifier: anything unknown comes before rc, beta and alpha. */
  function Rank(identifier: string): nat {
    if HasPrefix(identifier, "rc") then 1
    else if HasPrefix(identifier, "beta") then 2
    else if HasPrefix(identifier, "alpha") then 3
    else 0
  }

  predicate GreaterThan(v: Version, w: Version) {
    if v.major != w.major then v.major > w.major
    else if v.minor != w.minor then v.minor > w.minor
    else if v.patch != w.patch then v.patch > w.patch
    else if v.identifier == "" || w.identifier == "" then v.identifier == "" && w.identifier != ""
    else if v.identifier == w.identifier && v.preRelease != w.preRelease then v.preRelease > w.preRelease
    else Rank(v.identifier) < Rank(w.identifier)
  }

  predicate GreaterThanOrEqual(v: Version, w: Version) {
    v == w || GreaterThan(v, w)
  }

  predicate LessThan(v: Version, w: Version) {
    !GreaterThanOrEqual(v, w)
  }

  predicate LessThanOrEqual(v: Version, w: Version) {
    v == w || GreaterThan(w, v)
  }

  lemma GreaterThanIsAnOrder(u: Version, v: Version, w: Version)
    ensures !GreaterThan(v, v)
    ensures GreaterThan(u, v) && GreaterThan(v, w) ==> GreaterThan(u, w)
  {
    hide Rank;
  }

  /**
   The first number that differs decides, the higher one being greater. Of equal numbers a release is
   greater than a pre-release, of two pre-releases of one name the later, and otherwise the one whose
   name stands for something nearer to a release.
   */
  lemma WhichIsGreater(v: Version, w: Version)
    ensures var same := v.major == w.major && v.minor == w.minor && v.patch == w.patch;
            && (v.major != w.major ==> (GreaterThan(v, w) <==> v.major > w.major))
            && (v.major == w.major && v.minor != w.minor ==> (GreaterThan(v, w) <==> v.minor > w.minor))
            && (v.major == w.major && v.minor == w.minor && v.patch != w.patch ==>
                  (GreaterThan(v, w) <==> v.patch > w.patch))
            && (same && (v.identifier == "" || w.identifier == "") ==>
                  (GreaterThan(v, w) <==> v.identifier == "" && w.identifier != ""))
            && (same && v.identifier == w.identifier != "" ==>
                  (GreaterThan(v, w) <==> v.preRelease > w.preRelease))
            && (same && v.identifier != w.identifier && v.identifier != "" && w.identifier != "" ==>
                  (GreaterThan(v, w) <==> Rank(v.identifier) < Rank(w.identifier)))
  {
    hide Rank;
  }

  /** Of the names only the beginning counts; any other name comes before these three. */
  lemma Ranks(name: string)
    ensures var rc, beta, alpha := |name| >= 2 && name[..2] == "rc", |name| >= 4 && name[..4] == "beta",
        |name| >= 5 && name[..5] == "alpha";
            && (rc <==> Rank(name) == 1) && (beta <==> Rank(name) == 2) && (alpha <==> Rank(name) == 3)
            && (!rc && !beta && !alpha <==> Rank(name) == 0)
  {
    assert "rc"[0] == 'r' && "beta"[0] == 'b' && "alpha"[0] == 'a';
    assert |name| >= 2 ==> name[..2][0] == name[0];
    assert |name| >= 4 ==> name[..4][0] == name[0];
    assert |name| >= 5 ==> name[..5][0] == name[0];
  }

  /** A release is greater than its candidates, these than its betas, and these than its alphas. */
  lemma ReleasesInOrder(major: int64, minor: int64, patch: int64, i: int64, j: int64)
    ensures var v := (identifier: string, n: int64) => Version(major, minor, patch, "", identifier, n);
            && GreaterThan(v("", 0), v("rc", i)) && GreaterThan(v("rc", i), v("beta", j))
            && GreaterThan(v("beta", i), v("alpha", j)) && (GreaterThan(v("beta", i), v("beta", j)) <==> i > j)
  {
    assert "rc"[..2] == "rc" && "beta"[..4] == "beta" && "alpha"[..5] == "alpha";
    Ranks("rc");
    Ranks("beta");
    Ranks("alpha");
    hide Rank;
  }

  /** Neither is greater: the numbers are the same and both have no identifier or identifiers nothing tells apart. */
  predicate Tied(v: Version, w: Version) {
    && v.major == w.major && v.minor == w.minor && v.patch == w.patch
    && (v.identifier == "" <==> w.identifier == "")
    && (v.identifier != "" ==>
          Rank(v.identifier) == Rank(w.identifier) && (v.identifier == w.identifier ==> v.preRelease == w.preRelease))
  }

  /** The released versions and their alphas, betas and release candidates. */
  predicate Regular(v: Version) {
    && v.commit == "" && v.identifier in {"", "alpha", "beta", "rc"}
    && (v.identifier == "" ==> v.preRelease == 0)
  }

  /** Two versions are incomparable exactly when tied, and of regular ones only equal versions are. */
  lemma TotalUnlessTied(v: Version, w: Version)
    ensures !GreaterThan(v, w) && !GreaterThan(w, v) <==> Tied(v, w)
    ensures Regular(v) && Regular(w) ==> (Tied(v, w) <==> v == w)
  {
    if Regular(v) && Regular(w) {
      RegularRanks(v);
      RegularRanks(w);
    }
    hide Rank;
  }

  lemma RegularRanks(v: Version)
    requires Regular(v)
    ensures v.identifier != "" ==>
        Rank(v.identifier) == if v.identifier == "rc" then 1 else if v.identifier == "beta" then 2 else 3
  {
    assert "rc"[0] == 'r' && "beta"[0] == 'b' && "alpha"[0] == 'a';
  }

  /** Being less is defined as not being greater or equal, so tied versions that differ are each less than the other. */
  lemma LessBothWays(v: Version, w: Version)
    ensures LessThan(v, w) && LessThan(w, v) <==> Tied(v, w) && v != w
    ensures Regular(v) && Regular(w) ==> (LessThan(v, w) <==> GreaterThan(w, v))
    ensures Regular(v) && Regular(w) ==> (LessThanOrEqual(v, w) <==> !GreaterThan(v, w))
  {
    TotalUnlessTied(v, w);
    GreaterThanIsAnOrder(v, w, v);
    GreaterThanIsAnOrder(w, v, w);
    hide GreaterThan, Tied, Regular;
  }
}
