/**
 The newc archive reader.  Positions are offsets into the image, which lies at
 address `base`; `align4` works on addresses.
 */
module Cpio {
  import opened Bytes
  import Hex

  const HEADER: nat := 110
  const MAGIC: seq<byte> := [0x30, 0x37, 0x30, 0x37, 0x30, 0x31]
  /** "TRAILER!!!" */
  const TRAILER: seq<byte> := [0x54, 0x52, 0x41, 0x49, 0x4C, 0x45, 0x52, 0x21, 0x21, 0x21]

  /** `align4` of the address of offset `x`, as an offset. */
  function Align(base: nat, x: nat): (y: nat)
    ensures x <= y < x + 4
    ensures (base + y) % 4 == 0
  {
    (base + x + 3) / 4 * 4 - base
  }

  /** `strcmp` of the bytes at `at` with the string `s`; `Overrun` if it leaves the image. */
  datatype Comparison = Equal | Differs | Overrun

  function StrCmp(image: seq<byte>, at: nat, s: seq<byte>): Comparison
    decreases |s|
  {
    if at >= |image| then Overrun
    else if s == [] then (if image[at] == 0 then Equal else Differs)
    else if image[at] != s[0] then Differs
    else StrCmp(image, at + 1, s[1..])
  }

  /** A comparison is equal on the string with its NUL, and overruns on an image cut off inside the string. */
  lemma {:induction false} StrCmpMeaning(image: seq<byte>, at: nat, s: seq<byte>)
    requires at <= |image|
    ensures StrCmp(image, at, s).Equal? <==> s + [0] <= image[at..]
    ensures StrCmp(image, at, s).Overrun? <==> image[at..] <= s
    decreases |s|
  {
    if at < |image| {
      var rest := image[at..];
      assert rest[0] == image[at] && rest[1..] == image[at + 1..];
      if s != [] {
        StrCmpMeaning(image, at + 1, s[1..]);
        assert s + [0] == [s[0]] + (s[1..] + [0]);
        assert s == [s[0]] + s[1..];
        assert rest == [rest[0]] + rest[1..];
        if image[at] == s[0] {
          assert s + [0] <= rest <==> s[1..] + [0] <= rest[1..];
          assert rest <= s <==> rest[1..] <= s[1..];
        }
      }
    }
  }

  function NameSize(image: seq<byte>, p: nat): nat
    requires p + HEADER <= |image|
  {
    Hex.Value(image[p + 94..p + 102])
  }

  function FileSize(image: seq<byte>, p: nat): nat
    requires p + HEADER <= |image|
  {
    Hex.Value(image[p + 54..p + 62])
  }

  /** A header at `p` whose name lies inside the image. */
  predicate HasName(image: seq<byte>, p: nat) {
    && p + HEADER <= |image|
    && image[p..p + 6] == MAGIC
    && p + HEADER + NameSize(image, p) <= |image|
  }

  /** A header at `p` whose name and data lie inside the image. */
  predicate Fits(image: seq<byte>, base: nat, p: nat) {
    && HasName(image, p)
    && Data(image, base, p) + FileSize(image, p) <= |image|
  }

  function Data(image: seq<byte>, base: nat, p: nat): (d: nat)
    requires p + HEADER <= |image|
    ensures d >= p + HEADER && (base + d) % 4 == 0
  {
    Align(base, p + HEADER + NameSize(image, p))
  }

  function Next(image: seq<byte>, base: nat, p: nat): (q: nat)
    requires p + HEADER <= |image|
    ensures q >= p + HEADER && (base + q) % 4 == 0
  {
    Align(base, Data(image, base, p) + FileSize(image, p))
  }

  datatype Lookup = Found(data: nat, len: nat) | Missing | Overran

  /** The search from offset `p` on. */
  function FindFrom(image: seq<byte>, base: nat, path: seq<byte>, p: nat): Lookup
    decreases |image| - p
  {
    if p + HEADER > |image| then Missing
    else if image[p..p + 6] != MAGIC then Missing
    else if p + HEADER + NameSize(image, p) > |image| then Missing
    else
      match StrCmp(image, p + HEADER, TRAILER)
      case Equal => Missing
      case Overrun => Overran
      case Differs =>
        if Data(image, base, p) + FileSize(image, p) > |image| then Missing
        else
          match StrCmp(image, p + HEADER, path)
          case Equal => Found(Data(image, base, p), FileSize(image, p))
          case Overrun => Overran
          case Differs => FindFrom(image, base, path, Next(image, base, p))
  }

  /** `cpio_find`. */
  method Find(image: seq<byte>, base: nat, path: seq<byte>) returns (r: Lookup)
    ensures r == FindFrom(image, base, path, 0)
  {
    hide Hex.Value, Align, StrCmp;
    var p := 0;
    while p + HEADER <= |image|
      invariant FindFrom(image, base, path, p) == FindFrom(image, base, path, 0)
      decreases |image| - p
    {
      if image[p..p + 6] != MAGIC { return Missing; }
      var nameSize := Hex.Hx8(image[p + 94..]);
      assert nameSize == NameSize(image, p) by { assert image[p + 94..][..8] == image[p + 94..p + 102]; }
      var fileSize := Hex.Hx8(image[p + 54..]);
      assert fileSize == FileSize(image, p) by { assert image[p + 54..][..8] == image[p + 54..p + 62]; }
      var name := p + HEADER;
      if name + nameSize > |image| { return Missing; }
      var trailer := StrCmp(image, name, TRAILER);
      if trailer.Overrun? { return Overran; }
      if trailer.Equal? { return Missing; }
      var data := Align(base, name + nameSize);
      if data + fileSize > |image| { return Missing; }
      var comparison := StrCmp(image, name, path);
      if comparison.Overrun? { return Overran; }
      if comparison.Equal? { return Found(data, fileSize); }
      assert Align(base, data + fileSize) == Next(image, base, p);
      p := Align(base, data + fileSize);
    }
    return Missing;
  }

  // ---------------------------------------------------------------------------
  // Any image

  /** `q` is reached from `p` through headers that fit. */
  ghost predicate Reaches(image: seq<byte>, base: nat, p: nat, q: nat)
    decreases |image| - p
  {
    p == q || (Fits(image, base, p) && Reaches(image, base, Next(image, base, p), q))
  }

  ghost predicate NamedAt(image: seq<byte>, p: nat, name: seq<byte>) {
    p + HEADER <= |image| && name + [0] <= image[p + HEADER..]
  }

  /** The image ends inside the name at `p`, with no difference from `name` so far. */
  ghost predicate CutOff(image: seq<byte>, p: nat, name: seq<byte>) {
    p + HEADER <= |image| && image[p + HEADER..] <= name
  }

  /** The name at `p` differs from `name`, and does so inside the image. */
  ghost predicate Other(image: seq<byte>, p: nat, name: seq<byte>) {
    !NamedAt(image, p, name) && !CutOff(image, p, name)
  }

  /** The headers from `p` up to and excluding `q` carry neither `path` nor the trailer. */
  ghost predicate Skipped(image: seq<byte>, base: nat, path: seq<byte>, p: nat, q: nat)
    decreases |image| - p
  {
    p == q ||
    (&& Fits(image, base, p) && Other(image, p, path) && Other(image, p, TRAILER)
     && Skipped(image, base, path, Next(image, base, p), q))
  }

  /** `r` is the data of the header at `q`, the first one named `path` on the chain from `p`, before any trailer. */
  ghost predicate IsFirst(image: seq<byte>, base: nat, path: seq<byte>, p: nat, q: nat, r: Lookup) {
    && Skipped(image, base, path, p, q) && Fits(image, base, q)
    && NamedAt(image, q, path) && Other(image, q, TRAILER)
    && r == Found(Data(image, base, q), FileSize(image, q))
  }

  /** The chain from `p` leads, past other headers, to one at `q` whose name the image cuts off. */
  ghost predicate RunsOff(image: seq<byte>, base: nat, path: seq<byte>, p: nat, q: nat) {
    && Skipped(image, base, path, p, q) && HasName(image, q)
    && (CutOff(image, q, TRAILER) || (Other(image, q, TRAILER) && Fits(image, base, q) && CutOff(image, q, path)))
  }

  lemma FitsInside(image: seq<byte>, base: nat, p: nat)
    requires Fits(image, base, p)
    ensures HasName(image, p) && p + HEADER <= |image| && Data(image, base, p) + FileSize(image, p) <= |image|
  {
  }

  lemma NeverBoth(image: seq<byte>, p: nat, name: seq<byte>)
    ensures !(NamedAt(image, p, name) && CutOff(image, p, name))
  {
  }

  /** One turn of the search, with each comparison replaced by what it tells. */
  lemma Turn(image: seq<byte>, base: nat, path: seq<byte>, p: nat)
    ensures HasName(image, p) ==> p + HEADER <= |image|
    ensures FindFrom(image, base, path, p)
         == if !HasName(image, p) || NamedAt(image, p, TRAILER) then Missing
            else if CutOff(image, p, TRAILER) then Overran
            else if !Fits(image, base, p) then Missing
            else if NamedAt(image, p, path) then Found(Data(image, base, p), FileSize(image, p))
            else if CutOff(image, p, path) then Overran
            else FindFrom(image, base, path, Next(image, base, p))
  {
    hide Hex.Value, Align, StrCmp;
    if p + HEADER <= |image| {
      StrCmpMeaning(image, p + HEADER, TRAILER);
      StrCmpMeaning(image, p + HEADER, path);
    }
  }

  /**
   On any image, what is found is 4-aligned, inside the image, and belongs to a
   header named `path`, the first such on the chain of headers from the start,
   with no trailer before it; and the search leaves the image only at a header
   whose name is cut off.
   */
  lemma {:induction false} SearchIsSound(image: seq<byte>, base: nat, path: seq<byte>, p: nat)
    ensures var r := FindFrom(image, base, path, p);
      && (r.Found? ==> (base + r.data) % 4 == 0 && r.data + r.len <= |image|)
      && (r.Found? ==> exists q: nat :: IsFirst(image, base, path, p, q, r))
      && (r.Overran? ==> exists q: nat :: RunsOff(image, base, path, p, q))
    decreases |image| - p
  {
    hide Align, FindFrom, NamedAt, CutOff, Fits, HasName, Hex.Value;
    Turn(image, base, path, p);
    NeverBoth(image, p, TRAILER);
    var r := FindFrom(image, base, path, p);
    if HasName(image, p) && !NamedAt(image, p, TRAILER) {
      if CutOff(image, p, TRAILER) {
        assert RunsOff(image, base, path, p, p);
      } else if Fits(image, base, p) {
        FitsInside(image, base, p);
        if NamedAt(image, p, path) {
          assert IsFirst(image, base, path, p, p, r);
        } else if CutOff(image, p, path) {
          assert RunsOff(image, base, path, p, p);
        } else {
          SearchIsSound(image, base, path, Next(image, base, p));
          if r.Found? {
            var q: nat :| IsFirst(image, base, path, Next(image, base, p), q, r);
            assert IsFirst(image, base, path, p, q, r);
          } else if r.Overran? {
            var q: nat :| RunsOff(image, base, path, Next(image, base, p), q);
            assert RunsOff(image, base, path, p, q);
          }
        }
      }
    }
  }

  /** Where the search ends without a find: not at the text "070701", or at a member named "TRAILER!!!". */
  lemma SearchEnds(image: seq<byte>, base: nat, path: seq<byte>, p: nat)
    ensures p + 110 > |image| || image[p..p + 6] != [0x30, 0x37, 0x30, 0x37, 0x30, 0x31] ==>
              FindFrom(image, base, path, p) == Missing
    ensures p + 110 <= |image| &&
            [0x54, 0x52, 0x41, 0x49, 0x4C, 0x45, 0x52, 0x21, 0x21, 0x21, 0] <= image[p + 110..] ==>
              FindFrom(image, base, path, p) == Missing
  {
    hide FindFrom, Align, Hex.Value, CutOff;
    assert TRAILER + [0] == [0x54, 0x52, 0x41, 0x49, 0x4C, 0x45, 0x52, 0x21, 0x21, 0x21, 0];
    Turn(image, base, path, p);
  }

  /** The search passes over the headers it skips. */
  lemma {:induction false} SkippedIsPassed(image: seq<byte>, base: nat, path: seq<byte>, p: nat, q: nat)
    requires Skipped(image, base, path, p, q)
    ensures FindFrom(image, base, path, p) == FindFrom(image, base, path, q)
    decreases |image| - p
  {
    hide Align, FindFrom, NamedAt, CutOff, Fits, HasName, Hex.Value;
    if p != q {
      FitsInside(image, base, p);
      Turn(image, base, path, p);
      SkippedIsPassed(image, base, path, Next(image, base, p), q);
    }
  }

  /** Conversely, on any image, the first header named `path` is found, and a name cut off on the way overruns. */
  lemma SearchIsComplete(image: seq<byte>, base: nat, path: seq<byte>, p: nat, q: nat, r: Lookup)
    ensures IsFirst(image, base, path, p, q, r) ==> FindFrom(image, base, path, p) == r
    ensures RunsOff(image, base, path, p, q) ==> FindFrom(image, base, path, p) == Overran
  {
    hide Align, FindFrom, Skipped, Hex.Value;
    if IsFirst(image, base, path, p, q, r) || RunsOff(image, base, path, p, q) {
      SkippedIsPassed(image, base, path, p, q);
      Turn(image, base, path, q);
      NeverBoth(image, q, path);
      NeverBoth(image, q, TRAILER);
    }
  }

  /** There is a NUL at or after offset `at`. */
  ghost predicate Terminated(image: seq<byte>, at: nat) {
    exists k :: at <= k < |image| && image[k] == 0
  }

  lemma TerminatedIsNotCutOff(image: seq<byte>, p: nat, name: seq<byte>)
    requires 0 !in name && p + HEADER <= |image| && Terminated(image, p + HEADER)
    ensures !CutOff(image, p, name)
  {
    var k :| p + HEADER <= k < |image| && image[k] == 0;
    assert image[p + HEADER..][k - (p + HEADER)] == 0;
  }

  lemma {:induction false} SkippedIsReached(image: seq<byte>, base: nat, path: seq<byte>, p: nat, q: nat)
    requires Skipped(image, base, path, p, q)
    ensures Reaches(image, base, p, q)
    decreases |image| - p
  {
    hide Align, Fits, Other, Hex.Value;
    if p != q {
      FitsInside(image, base, p);
      SkippedIsReached(image, base, path, Next(image, base, p), q);
    }
  }

  /** When every name visited has its NUL inside the image, no comparison leaves it. */
  lemma TerminatedNamesNeverOverrun(image: seq<byte>, base: nat, path: seq<byte>, p: nat)
    requires 0 !in path
    requires forall q: nat :: Reaches(image, base, p, q) && q + HEADER <= |image| ==> Terminated(image, q + HEADER)
    ensures FindFrom(image, base, path, p) != Overran
  {
    hide Align, FindFrom, Reaches, Skipped, Terminated, CutOff, Hex.Value;
    SearchIsSound(image, base, path, p);
    if q: nat :| RunsOff(image, base, path, p, q) {
      SkippedIsReached(image, base, path, p, q);
      TerminatedIsNotCutOff(image, q, TRAILER);
      TerminatedIsNotCutOff(image, q, path);
    }
  }
}
