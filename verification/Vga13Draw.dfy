/** Mode 13h drawing: clipped fills of the 320x200 frame buffer. */
module Vga13Draw {
  import opened Bytes

  const WIDTH: nat := 320
  const HEIGHT: nat := 200
  const PIXELS: nat := 64000

  type Frame = f: seq<byte> | |f| == PIXELS witness seq(PIXELS, _ => 0)

  predicate Inside(k: nat, x: int, y: int, w: int, h: int) {
    x <= k % WIDTH < x + w && y <= k / WIDTH < y + h
  }

  /** `f` with the on-screen pixels of a rectangle in colour `c`, the rest unchanged. */
  function Paint(f: Frame, x: int, y: int, w: int, h: int, c: byte): (g: Frame)
    ensures forall k :: 0 <= k < PIXELS ==> g[k] == if Inside(k, x, y, w, h) then c else f[k]
  {
    seq(PIXELS, k requires 0 <= k < PIXELS => if Inside(k, x, y, w, h) then c else f[k])
  }

  lemma PixelIndex(x: nat, y: nat)
    requires x < WIDTH && y < HEIGHT
    ensures y * WIDTH + x < PIXELS
    ensures (y * WIDTH + x) % WIDTH == x && (y * WIDTH + x) / WIDTH == y
  {
  }

  /** A painted frame by the coordinates of its pixels: 320 to a row. */
  lemma PixelPainted(f: Frame, x: int, y: int, w: int, h: int, c: byte, px: nat, py: nat)
    requires px < 320 && py < 200
    ensures Paint(f, x, y, w, h, c)[py * 320 + px]
         == if x <= px < x + w && y <= py < y + h then c else f[py * 320 + px]
  {
    PixelIndex(px, py);
  }

  /** A rectangle of one more row. */
  lemma RowBelow(x: int, y: int, w: int, h: nat)
    ensures forall k :: Inside(k, x, y, w, h + 1) <==> Inside(k, x, y, w, h) || Inside(k, x, y + h, w, 1)
  {
  }

  /** A row of one more pixel. */
  lemma PixelRight(x: nat, y: nat, w: nat)
    requires x + w < WIDTH && y < HEIGHT
    ensures y * WIDTH + x + w < PIXELS
    ensures forall k :: Inside(k, x, y, w + 1, 1) <==> Inside(k, x, y, w, 1) || k == y * WIDTH + x + w
  {
    PixelIndex(x + w, y);
    assert y * WIDTH + (x + w) == y * WIDTH + x + w;
    forall k: nat
      ensures Inside(k, x, y, w + 1, 1) <==> Inside(k, x, y, w, 1) || k == y * WIDTH + x + w
    {
      assert k == k / WIDTH * WIDTH + k % WIDTH;
      if k == y * WIDTH + x + w {
        assert k % WIDTH == x + w && k / WIDTH == y;
      }
    }
  }

  lemma NoPixel(x: int, y: int, w: int, h: int)
    requires w <= 0 || h <= 0
    ensures forall k :: !Inside(k, x, y, w, h)
  {
  }

  /** Clipping a rectangle to the screen takes no pixel of the screen from it. */
  lemma Clipped(x: int, y: int, w: int, h: int, x': int, y': int, w': int, h': int)
    requires x' == (if x < 0 then 0 else x) && x' + w' == if x + w > WIDTH then WIDTH else x + w
    requires y' == (if y < 0 then 0 else y) && y' + h' == if y + h > HEIGHT then HEIGHT else y + h
    ensures forall k :: 0 <= k < PIXELS ==> (Inside(k, x, y, w, h) <==> Inside(k, x', y', w', h'))
  {
  }

  method ClearFrame(fb: array<byte>, color: byte)
    requires fb.Length == PIXELS
    modifies fb
    ensures fb[..] == Paint(old(fb[..]), 0, 0, WIDTH, HEIGHT, color)
  {
    for i := 0 to PIXELS
      invariant forall k :: 0 <= k < i ==> fb[k] == color
    {
      fb[i] := color;
    }
  }

  method PutPixel(fb: array<byte>, x: int, y: int, c: byte)
    requires fb.Length == PIXELS
    modifies fb
    ensures fb[..] == Paint(old(fb[..]), x, y, 1, 1, c)
  {
    if 0 <= x < WIDTH && 0 <= y < HEIGHT {
      PixelIndex(x, y);
      fb[y * WIDTH + x] := c;
    }
  }

  method HLine(fb: array<byte>, x: int, y: int, w: int, color: byte)
    requires fb.Length == PIXELS
    modifies fb
    ensures fb[..] == Paint(old(fb[..]), x, y, w, 1, color)
  {
    if y < 0 || y >= HEIGHT { return; }
    var x, w := x, w;
    if x < 0 { x, w := 0, w + x; }
    if x + w > WIDTH { w := WIDTH - x; }
    if w <= 0 { return; }
    var dst := y * WIDTH + x;
    PixelIndex(x, y);
    for i := 0 to w
      invariant forall k :: 0 <= k < PIXELS ==> fb[k] == if Inside(k, x, y, i, 1) then color else old(fb[k])
    {
      PixelIndex(x + i, y);
      fb[dst + i] := color;
    }
  }

  method VLine(fb: array<byte>, x: int, y: int, h: int, color: byte)
    requires fb.Length == PIXELS
    modifies fb
    ensures fb[..] == Paint(old(fb[..]), x, y, 1, h, color)
  {
    if x < 0 || x >= WIDTH { return; }
    var y, h := y, h;
    if y < 0 { y, h := 0, h + y; }
    if y + h > HEIGHT { h := HEIGHT - y; }
    if h <= 0 { return; }
    var dst := y * WIDTH + x;
    for i := 0 to h
      invariant dst == (y + i) * WIDTH + x
      invariant forall k :: 0 <= k < PIXELS ==> fb[k] == if Inside(k, x, y, 1, i) then color else old(fb[k])
    {
      PixelIndex(x, y + i);
      fb[dst] := color;
      dst := dst + WIDTH;
    }
  }

  method RectFill(fb: array<byte>, x: int, y: int, w: int, h: int, color: byte)
    requires fb.Length == PIXELS
    modifies fb
    ensures fb[..] == Paint(old(fb[..]), x, y, w, h, color)
  {
    hide Inside;
    ghost var x0, y0, w0, h0 := x, y, w, h;
    var x, y, w, h := x, y, w, h;
    if x < 0 { x, w := 0, w + x; }
    if y < 0 { y, h := 0, h + y; }
    if x + w > WIDTH { w := WIDTH - x; }
    if y + h > HEIGHT { h := HEIGHT - y; }
    Clipped(x0, y0, w0, h0, x, y, w, h);
    NoPixel(x, y, w, 0);
    if w <= 0 || h <= 0 {
      NoPixel(x, y, w, h);
      return;
    }
    var dst := y * WIDTH + x;
    for j := 0 to h
      invariant dst == (y + j) * WIDTH + x
      invariant forall k :: 0 <= k < PIXELS ==> fb[k] == if Inside(k, x, y, w, j) then color else old(fb[k])
    {
      ghost var before := fb[..];
      RowBelow(x, y, w, j);
      NoPixel(x, y + j, 0, 1);
      for i := 0 to w
        invariant forall k :: 0 <= k < PIXELS ==> fb[k] == if Inside(k, x, y + j, i, 1) then color else before[k]
      {
        PixelRight(x, y + j, i);
        fb[dst + i] := color;
      }
      dst := dst + WIDTH;
    }
  }

  // ---------------------------------------------------------------------------
  // The same rectangle drawn pixel by pixel, row by row and column by column

  function Pixels(f: Frame, x: int, y: int, w: nat, c: byte): Frame {
    if w == 0 then f else Paint(Pixels(f, x, y, w - 1, c), x + w - 1, y, 1, 1, c)
  }

  function PixelRows(f: Frame, x: int, y: int, w: nat, h: nat, c: byte): Frame {
    if h == 0 then f else Pixels(PixelRows(f, x, y, w, h - 1, c), x, y + h - 1, w, c)
  }

  function Rows(f: Frame, x: int, y: int, w: int, h: nat, c: byte): Frame {
    if h == 0 then f else Paint(Rows(f, x, y, w, h - 1, c), x, y + h - 1, w, 1, c)
  }

  function Columns(f: Frame, x: int, y: int, w: nat, h: int, c: byte): Frame {
    if w == 0 then f else Paint(Columns(f, x, y, w - 1, h, c), x + w - 1, y, 1, h, c)
  }

  lemma {:induction false} PixelsAreLine(f: Frame, x: int, y: int, w: nat, c: byte)
    ensures Pixels(f, x, y, w, c) == Paint(f, x, y, w, 1, c)
  {
    if w > 0 { PixelsAreLine(f, x, y, w - 1, c); }
  }

  lemma {:induction false} RowsAreRect(f: Frame, x: int, y: int, w: int, h: nat, c: byte)
    ensures Rows(f, x, y, w, h, c) == Paint(f, x, y, w, h, c)
  {
    if h > 0 { RowsAreRect(f, x, y, w, h - 1, c); }
  }

  lemma {:induction false} ColumnsAreRect(f: Frame, x: int, y: int, w: nat, h: int, c: byte)
    ensures Columns(f, x, y, w, h, c) == Paint(f, x, y, w, h, c)
  {
    if w > 0 { ColumnsAreRect(f, x, y, w - 1, h, c); }
  }

  lemma {:induction false} PixelRowsAreRect(f: Frame, x: int, y: int, w: nat, h: nat, c: byte)
    ensures PixelRows(f, x, y, w, h, c) == Paint(f, x, y, w, h, c)
  {
    if h > 0 {
      PixelRowsAreRect(f, x, y, w, h - 1, c);
      PixelsAreLine(Paint(f, x, y, w, h - 1, c), x, y + h - 1, w, c);
    }
  }

  /** A size below 0 draws as much as 0. */
  function Extent(n: int): nat {
    if n < 0 then 0 else n
  }

  /** A filled rectangle is its pixels, its rows, or its columns, for any position and size. */
  lemma RectIsAnyLoop(f: Frame, x: int, y: int, w: int, h: int, c: byte)
    ensures Paint(f, x, y, w, h, c) == PixelRows(f, x, y, Extent(w), Extent(h), c)
    ensures Paint(f, x, y, w, h, c) == Rows(f, x, y, w, Extent(h), c)
    ensures Paint(f, x, y, w, h, c) == Columns(f, x, y, Extent(w), h, c)
  {
    assert Paint(f, x, y, w, h, c) == Paint(f, x, y, Extent(w), Extent(h), c);
    assert Paint(f, x, y, w, h, c) == Paint(f, x, y, w, Extent(h), c);
    assert Paint(f, x, y, w, h, c) == Paint(f, x, y, Extent(w), h, c);
    PixelRowsAreRect(f, x, y, Extent(w), Extent(h), c);
    RowsAreRect(f, x, y, w, Extent(h), c);
    ColumnsAreRect(f, x, y, Extent(w), h, c);
  }
}
