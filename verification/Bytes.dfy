/** Bytes as the C code stores them, and the characters it compares them with. */
module Bytes {

  type byte = b: int | 0 <= b < 256

  const BACKSPACE: byte := 0x08
  const LF: byte := 0x0A
  const CR: byte := 0x0D
  const SPACE: byte := 0x20
  const DEL: byte := 0x7F

  /** The `int` value of a `char` holding `b`: `char` is signed on i386. */
  function SignExtend(b: byte): (k: int)
    ensures k < 0 <==> b >= 0x80
    ensures k % 256 == b
  {
    if b < 0x80 then b else b - 256
  }

  /** `(char)k` read back as an unsigned byte. */
  function AsByte(k: int): (b: byte)
  {
    k % 256
  }

  /** The bytes below 0x80 of `s`, in order. */
  function Ascii(s: seq<byte>): (r: seq<byte>)
    ensures forall b :: b in r ==> b < 0x80
  {
    if s == [] then []
    else
      var front := Ascii(s[..|s| - 1]);
      if s[|s| - 1] < 0x80 then front + [s[|s| - 1]] else front
  }

  lemma AsciiAppend(s: seq<byte>, b: byte)
    ensures Ascii(s + [b]) == Ascii(s) + if b < 0x80 then [b] else []
  {
    assert (s + [b])[..|s|] == s;
  }

  lemma {:induction false} AsciiIdentity(s: seq<byte>)
    requires forall b :: b in s ==> b < 0x80
    ensures Ascii(s) == s
  {
    if s != [] {
      var front := s[..|s| - 1];
      assert forall b :: b in front ==> b in s;
      AsciiIdentity(front);
      assert s == front + [s[|s| - 1]];
      assert s[|s| - 1] in s;
    }
  }

  function Flatten(lines: seq<seq<byte>>): seq<byte>
  {
    if lines == [] then [] else Flatten(lines[..|lines| - 1]) + lines[|lines| - 1]
  }

  lemma NoLines()
    ensures Flatten([]) == []
  {
  }

  lemma FlattenAppend(lines: seq<seq<byte>>, l: seq<byte>)
    ensures Flatten(lines + [l]) == Flatten(lines) + l
  {
    assert (lines + [l])[..|lines|] == lines;
  }

  lemma {:induction false} FlattenConcat(a: seq<seq<byte>>, b: seq<seq<byte>>)
    ensures Flatten(a + b) == Flatten(a) + Flatten(b)
  {
    hide Flatten;
    if b == [] {
      NoLines();
      assert a + b == a && Flatten(a) + [] == Flatten(a);
    } else {
      var front, last := b[..|b| - 1], b[|b| - 1];
      FlattenConcat(a, front);
      FrontAndLast(b);
      Associates(a, front, [last]);
      FlattenAppend(a + front, last);
      FlattenAppend(front, last);
      Associates(Flatten(a), Flatten(front), last);
    }
  }

  lemma OneMore<T>(s: seq<T>, n: nat)
    requires n < |s|
    ensures s[..n + 1] == s[..n] + [s[n]]
  {
  }

  lemma OneMoreFrom<T>(s: seq<T>, f: nat, n: nat)
    requires f + n < |s|
    ensures s[f..f + (n + 1)] == s[f..f + n] + [s[f + n]]
  {
  }

  lemma Split<T>(s: seq<T>, a: nat, b: nat)
    requires a + b <= |s|
    ensures s[..a] + s[a..][..b] == s[..a + b]
  {
  }

  lemma DropTwice<T>(s: seq<T>, a: nat, b: nat)
    requires a + b <= |s|
    ensures s[a..][b..] == s[a + b..]
  {
  }

  lemma FrontAndLast<T>(s: seq<T>)
    requires s != []
    ensures s == s[..|s| - 1] + [s[|s| - 1]]
  {
  }

  lemma Associates<T>(a: seq<T>, b: seq<T>, c: seq<T>)
    ensures a + (b + c) == (a + b) + c
  {
  }
}
