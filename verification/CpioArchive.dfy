/** A printer for newc archives, and what the reader finds in them. */
module CpioArchive {
  import opened Bytes
  import opened Cpio
  import Hex

  /**
   An archive member.  `early`, `middle` and `check` are the header fields that
   the reader skips: 6, 4 and 1 fields of eight characters.
   */
  datatype Member = Member(name: seq<byte>, contents: seq<byte>, early: seq<byte>, middle: seq<byte>, check: seq<byte>)

  predicate WellFormed(m: Member) {
    && 0 !in m.name && |m.name| + 1 < Hex.TWO32 && |m.contents| < Hex.TWO32
    && |m.early| == 48 && |m.middle| == 32 && |m.check| == 8
  }

  function Header(m: Member): (h: seq<byte>)
    requires WellFormed(m)
    ensures |h| == HEADER
  {
    MAGIC + m.early + Hex.Digits(|m.contents|, 8) + m.middle + Hex.Digits(|m.name| + 1, 8) + m.check
  }

  /** NULs up to a multiple of four. */
  function Padding(n: nat): (z: seq<byte>)
    ensures (n + |z|) % 4 == 0 && |z| < 4
  {
    assert n == n / 4 * 4 + n % 4;
    assert n + (4 - n % 4) == (n / 4 + 1) * 4;
    seq(if n % 4 == 0 then 0 else 4 - n % 4, _ => 0)
  }

  function Front(m: Member): (f: seq<byte>)
    requires WellFormed(m)
    ensures |f| % 4 == 0
  {
    hide Header, Padding;
    Header(m) + m.name + [0] + Padding(HEADER + |m.name| + 1)
  }

  lemma SumOfFours(a: nat, b: nat)
    requires a % 4 == 0 && b % 4 == 0
    ensures (a + b) % 4 == 0
  {
  }

  function Print(m: Member): (t: seq<byte>)
    requires WellFormed(m)
    ensures |t| % 4 == 0 && |t| >= HEADER
  {
    hide Header, Padding;
    SumOfFours(|Front(m)|, |m.contents| + |Padding(|m.contents|)|);
    Front(m) + m.contents + Padding(|m.contents|)
  }

  function Archive(ms: seq<Member>): seq<byte>
    requires forall m :: m in ms ==> WellFormed(m)
  {
    if ms == [] then [] else Print(ms[0]) + Archive(ms[1..])
  }

  /** The text `t` lies in the image at offset `p`. */
  ghost predicate Holds(image: seq<byte>, p: nat, t: seq<byte>) {
    p + |t| <= |image| && image[p..p + |t|] == t
  }

  lemma HoldsPart(image: seq<byte>, p: nat, t: seq<byte>, i: nat, part: seq<byte>)
    requires Holds(image, p, t) && i + |part| <= |t| && t[i..i + |part|] == part
    ensures Holds(image, p + i, part)
  {
    forall k | 0 <= k < |part|
      ensures image[p + i + k] == part[k]
    {
      assert image[p..p + |t|][i + k] == t[i..i + |part|][k];
    }
  }

  lemma HeaderParts(m: Member)
    requires WellFormed(m)
    ensures var h := Header(m);
      && h[0..6] == MAGIC
      && h[54..62] == Hex.Digits(|m.contents|, 8)
      && h[94..102] == Hex.Digits(|m.name| + 1, 8)
  {
  }

  lemma PrintSizes(m: Member)
    requires WellFormed(m)
    ensures var f := |Front(m)|;
      && f % 4 == 0 && HEADER + |m.name| + 1 <= f < HEADER + |m.name| + 1 + 4
      && f + |m.contents| <= |Print(m)| < f + |m.contents| + 4
  {
    hide Header, Padding;
  }

  lemma PrintParts(m: Member)
    requires WellFormed(m)
    ensures var t, f := Print(m), |Front(m)|;
      && HEADER + |m.name| + 1 <= f && f + |m.contents| <= |t|
      && t[0..HEADER] == Header(m)
      && t[HEADER..HEADER + |m.name| + 1] == m.name + [0]
      && t[f..f + |m.contents|] == m.contents
  {
    hide Header, Padding;
  }

  /** The text of a printed member: magic, sizes in hexadecimal, name with its NUL. */
  lemma PrintedText(m: Member)
    requires WellFormed(m)
    ensures var t := Print(m);
      && |t| >= 110 + |m.name| + 1
      && t[0..6] == [0x30, 0x37, 0x30, 0x37, 0x30, 0x31]
      && t[54..62] == Hex.Digits(|m.contents|, 8)
      && t[94..102] == Hex.Digits(|m.name| + 1, 8)
      && t[110..110 + |m.name| + 1] == m.name + [0]
  {
    hide Header, Print, Front, WellFormed;
    PrintParts(m);
    HeaderParts(m);
    var t := Print(m);
    assert t[0..6] == t[0..HEADER][0..6] && t[54..62] == t[0..HEADER][54..62] && t[94..102] == t[0..HEADER][94..102];
  }

  /** The header fields that the reader parses. */
  lemma HeaderRead(image: seq<byte>, p: nat, m: Member)
    requires WellFormed(m) && Holds(image, p, Header(m))
    ensures image[p..p + 6] == MAGIC
    ensures NameSize(image, p) == |m.name| + 1 && FileSize(image, p) == |m.contents|
  {
    hide Header, Hex.Value, Hex.Digits;
    HeaderParts(m);
    HoldsPart(image, p, Header(m), 0, MAGIC);
    HoldsPart(image, p, Header(m), 54, Hex.Digits(|m.contents|, 8));
    HoldsPart(image, p, Header(m), 94, Hex.Digits(|m.name| + 1, 8));
    Hex.HexRoundTrip(|m.contents|, []);
    Hex.HexRoundTrip(|m.name| + 1, []);
  }

  /** The texts of a printed member. */
  lemma MemberTexts(image: seq<byte>, p: nat, m: Member)
    requires WellFormed(m) && Holds(image, p, Print(m))
    ensures Holds(image, p, Header(m))
    ensures Holds(image, p + HEADER, m.name + [0])
    ensures Holds(image, p + |Front(m)|, m.contents)
    ensures p + |Print(m)| <= |image|
  {
    hide Header, Print, Front, WellFormed;
    PrintParts(m);
    HoldsPart(image, p, Print(m), 0, Header(m));
    HoldsPart(image, p, Print(m), HEADER, m.name + [0]);
    HoldsPart(image, p, Print(m), |Front(m)|, m.contents);
  }

  /** The reader's view of a printed member at a 4-aligned address. */
  lemma MemberRead(image: seq<byte>, base: nat, p: nat, m: Member)
    requires WellFormed(m) && Holds(image, p, Print(m)) && (base + p) % 4 == 0
    ensures Fits(image, base, p)
    ensures Data(image, base, p) == p + |Front(m)| && FileSize(image, p) == |m.contents|
    ensures Holds(image, Data(image, base, p), m.contents)
    ensures Next(image, base, p) == p + |Print(m)|
    ensures Holds(image, p + HEADER, m.name + [0])
  {
    hide Header, Print, Front, NameSize, FileSize, Align, WellFormed, Holds;
    PrintSizes(m);
    MemberTexts(image, p, m);
    HeaderRead(image, p, m);
    SumOfFours(base + p, |Front(m)|);
    SumOfFours(base + p, |Print(m)|);
    AlignUnique(base, p + HEADER + |m.name| + 1, p + |Front(m)|);
    AlignUnique(base, p + |Front(m)| + |m.contents|, p + |Print(m)|);
  }

  lemma AlignUnique(base: nat, x: nat, y: nat)
    requires x <= y < x + 4 && (base + y) % 4 == 0
    ensures Align(base, x) == y
  {
  }

  /** On a NUL-terminated name in the image, a comparison tells exactly whether the names are equal. */
  lemma {:induction false} NameCompare(image: seq<byte>, at: nat, name: seq<byte>, s: seq<byte>)
    requires 0 !in name && 0 !in s && Holds(image, at, name + [0])
    ensures StrCmp(image, at, s) == if name == s then Equal else Differs
    decreases |s|
  {
    assert image[at] == image[at..at + |name| + 1][0];
    if s != [] && name != [] && name[0] == s[0] {
      HoldsPart(image, at, name + [0], 1, name[1..] + [0]);
      NameCompare(image, at + 1, name[1..], s[1..]);
      assert name == [name[0]] + name[1..] && s == [s[0]] + s[1..];
    }
  }

  /** Member `i` is the one to be found: the first named `path`, with no trailer up to it. */
  ghost predicate FirstNamed(ms: seq<Member>, path: seq<byte>, i: nat) {
    && i < |ms| && ms[i].name == path
    && (forall j :: 0 <= j < i ==> ms[j].name != path)
    && (forall j :: 0 <= j <= i ==> ms[j].name != TRAILER)
  }

  /** One turn of the search over a printed member. */
  lemma MemberStep(image: seq<byte>, base: nat, p: nat, m: Member, path: seq<byte>)
    requires WellFormed(m) && Holds(image, p, Print(m)) && (base + p) % 4 == 0 && 0 !in path
    ensures FindFrom(image, base, path, p)
         == if m.name == TRAILER then Missing
            else if m.name == path then Found(p + |Front(m)|, |m.contents|)
            else FindFrom(image, base, path, p + |Print(m)|)
    ensures Holds(image, p + |Front(m)|, m.contents)
  {
    hide Print, Front, StrCmp, NameSize, FileSize, Data, Next, Holds;
    MemberRead(image, base, p, m);
    NameCompare(image, p + HEADER, m.name, TRAILER);
    NameCompare(image, p + HEADER, m.name, path);
  }

  /** `r` says where the contents of `m` lie in the image. */
  ghost predicate IsContents(r: Lookup, m: Member, image: seq<byte>) {
    r.Found? && r.len == |m.contents| && Holds(image, r.data, m.contents)
  }

  /** What the search must return: the contents of the first member named `path`, or nothing if there is none. */
  ghost predicate Correct(r: Lookup, ms: seq<Member>, path: seq<byte>, image: seq<byte>) {
    if exists i: nat :: FirstNamed(ms, path, i) then
      r.Found? && forall i: nat :: FirstNamed(ms, path, i) ==> IsContents(r, ms[i], image)
    else r.Missing?
  }

  /**
   On a printed archive at a 4-aligned address, whatever follows it, the reader
   returns the contents of the first member with the given name, and nothing
   exactly when there is none before the trailer.
   */
  lemma {:induction false} ReadsPrintedArchive(ms: seq<Member>, image: seq<byte>, base: nat, p: nat, path: seq<byte>)
    requires forall m :: m in ms ==> WellFormed(m)
    requires ms != [] && ms[|ms| - 1].name == TRAILER
    requires 0 !in path && (base + p) % 4 == 0
    requires Holds(image, p, Archive(ms))
    ensures Correct(FindFrom(image, base, path, p), ms, path, image)
    decreases |ms|
  {
    hide Print, Front, Holds, FindFrom, WellFormed;
    var m, rest := ms[0], ms[1..];
    assert m in ms;
    HoldsPart(image, p, Archive(ms), 0, Print(m));
    MemberStep(image, base, p, m, path);
    if m.name == path && m.name != TRAILER {
      assert FirstNamed(ms, path, 0);
    } else if m.name != TRAILER {
      HoldsPart(image, p, Archive(ms), |Print(m)|, Archive(rest));
      ReadsPrintedArchive(rest, image, base, p + |Print(m)|, path);
      forall i: nat
        ensures FirstNamed(ms, path, i) <==> i > 0 && FirstNamed(rest, path, i - 1)
      {
        FirstNamedTail(ms, path, i);
      }
      forall i: nat | FirstNamed(rest, path, i)
        ensures FirstNamed(ms, path, i + 1)
      {
        FirstNamedTail(ms, path, i + 1);
      }
    }
  }

  lemma FirstNamedTail(ms: seq<Member>, path: seq<byte>, i: nat)
    requires ms != [] && ms[0].name != TRAILER && ms[0].name != path
    ensures FirstNamed(ms, path, i) <==> i > 0 && FirstNamed(ms[1..], path, i - 1)
  {
    if i > 0 && FirstNamed(ms[1..], path, i - 1) {
      forall j | 0 < j <= i
        ensures ms[j].name != TRAILER && (j < i ==> ms[j].name != path)
      {
        assert ms[j] == ms[1..][j - 1];
      }
    }
  }
}
