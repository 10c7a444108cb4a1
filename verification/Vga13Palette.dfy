/** The two 256-colour palettes of mode 13h and the quantisers that index them. */
module Vga13Palette {
  import opened Bytes

  const TABLE: nat := 768

  /** `to_dac6`. */
  function ToDac6(x: byte): (d: byte)
    ensures d < 64
  {
    (x * 63 + 127) / 255
  }

  datatype Colour = Colour(r: byte, g: byte, b: byte)

  /** The channels that the macros `RC`, `GC` and `BC` take from a 32-bit colour. */
  function Channels(rgba: nat): Colour {
    Colour(rgba / 0x1_0000 % 256, rgba / 0x100 % 256, rgba % 256)
  }

  /** The nearest of `n + 1` levels, as the quantisers round it. */
  function Level(v: byte, n: nat): nat {
    (v * n + 127) / 255
  }

  function Dac(c: Colour): (seq<byte>) {
    [ToDac6(c.r), ToDac6(c.g), ToDac6(c.b)]
  }

  function Square(x: int): int {
    x * x
  }

  function Distance(a: Colour, b: Colour): int {
    Square(a.r - b.r) + Square(a.g - b.g) + Square(a.b - b.b)
  }

  /** The colour `index` stands for when `table` is loaded. */
  predicate Shows(table: seq<byte>, index: nat, c: Colour)
    requires |table| == TABLE && index < 256
  {
    table[index * 3..index * 3 + 3] == Dac(c)
  }

  lemma SquareGrows(x: int, y: int)
    requires -y <= x <= y
    ensures Square(x) <= Square(y) && Square(x) == Square(-x)
    ensures -y < x < y ==> Square(x) < Square(y)
  {
    assert y * y - x * x == (y - x) * (y + x);
    if -y < x < y {
      assert (y - x) * (y + x) > 0;
    }
  }

  /** The level of smaller error has the smaller square. */
  lemma CloserLevel(v: byte, near: byte, far: byte)
    requires Error(v, near) <= Error(v, far)
    ensures Square(v - near) <= Square(v - far)
    ensures Error(v, near) < Error(v, far) ==> Square(v - near) < Square(v - far)
  {
    SquareGrows(v - near, Error(v, far));
    SquareGrows(v - far, Error(v, far));
  }

  function Error(v: byte, level: byte): nat {
    if v >= level then v - level else level - v
  }

  lemma Quotient(n: nat, d: nat, q: nat, r: nat)
    requires r < d && n == q * d + r
    ensures n / d == q && n % d == r
  {
    var k := n / d - q;
    assert n == n / d * d + n % d;
    assert k * d == n / d * d - q * d;
    Multiple(k, d);
  }

  lemma Multiple(k: int, d: nat)
    ensures k > 0 ==> k * d >= d
    ensures k < 0 ==> k * d + d <= 0
  {
  }

  // ---------------------------------------------------------------------------
  // 16 reserved entries, a 6x6x6 cube, 24 greys

  function CubeIndex(r: nat, g: nat, b: nat): nat {
    16 + r * 36 + g * 6 + b
  }

  /** `rgb32_to_index`. */
  function ToIndex(rgba: nat): (i: nat)
    ensures 16 <= i < 232
  {
    hide Level, Channels;
    var c := Channels(rgba);
    LevelBounds(c.r, 5);
    LevelBounds(c.g, 5);
    LevelBounds(c.b, 5);
    CubeIndex(Level(c.r, 5), Level(c.g, 5), Level(c.b, 5))
  }

  function CubeColour(r: nat, g: nat, b: nat): Colour
    requires r < 6 && g < 6 && b < 6
  {
    Colour(r * 51, g * 51, b * 51)
  }

  function Grey(k: nat): Colour
    requires k < 24
  {
    Colour(k * 255 / 23, k * 255 / 23, k * 255 / 23)
  }

  /** The colour of palette entry `i`, by arithmetic on the index. */
  function ColourAt(i: nat): Colour
    requires i < 256
  {
    if i < 16 then Colour(0, 0, 0)
    else if i < 232 then CubeColour((i - 16) / 36, (i - 16) / 6 % 6, (i - 16) % 6)
    else Grey(i - 232)
  }

  lemma CubeEntry(r: nat, g: nat, b: nat)
    requires r < 6 && g < 6 && b < 6
    ensures CubeIndex(r, g, b) < 232 && ColourAt(CubeIndex(r, g, b)) == CubeColour(r, g, b)
  {
    hide CubeColour, Grey;
    CubeDigits(r, g, b);
  }

  lemma CubeDigits(r: nat, g: nat, b: nat)
    requires r < 6 && g < 6 && b < 6
    ensures var n := r * 36 + g * 6 + b;
      n < 216 && n / 36 == r && n / 6 % 6 == g && n % 6 == b
  {
    var n := r * 36 + g * 6 + b;
    Quotient(n, 6, r * 6 + g, b);
    Quotient(r * 6 + g, 6, r, g);
    Quotient(n, 36, r, g * 6 + b);
  }

  /** The first `n` entries show the colours of `colours`. */
  ghost predicate Filled(table: seq<byte>, n: nat, colours: nat -> Colour) {
    |table| == TABLE && n <= 256 && forall j :: 0 <= j < n ==> Shows(table, j, colours(j))
  }

  method SetEntry(table: array<byte>, i: nat, c: Colour, ghost colours: nat -> Colour) returns (next: nat)
    requires i < 256 && Filled(table[..], i, colours) && c == colours(i)
    modifies table
    ensures next == i + 1 && Filled(table[..], next, colours)
  {
    ghost var before := table[..];
    table[i * 3 + 0] := ToDac6(c.r);
    table[i * 3 + 1] := ToDac6(c.g);
    table[i * 3 + 2] := ToDac6(c.b);
    next := i + 1;
    forall j | 0 <= j < next
      ensures Shows(table[..], j, colours(j))
    {
      if j < i {
        assert Shows(before, j, colours(j));
        assert table[..][j * 3..j * 3 + 3] == before[j * 3..j * 3 + 3];
      } else {
        assert table[..][i * 3..i * 3 + 3] == Dac(c);
      }
    }
  }

  /** `vga13_build_palette`, up to loading the table into the DAC. */
  method BuildPalette(table: array<byte>)
    requires table.Length == TABLE
    modifies table
    ensures Filled(table[..], 256, PaletteColour)
  {
    hide Shows, Dac, Filled;
    NothingFilled(table[..], PaletteColour);
    var i := 0;
    while i < 16
      invariant i <= 16 && Filled(table[..], i, PaletteColour)
    {
      i := SetEntry(table, i, Colour(0, 0, 0), PaletteColour);
    }
    for r := 0 to 6
      invariant i == CubeIndex(r, 0, 0) && Filled(table[..], i, PaletteColour)
    {
      for g := 0 to 6
        invariant i == CubeIndex(r, g, 0) && Filled(table[..], i, PaletteColour)
      {
        for b := 0 to 6
          invariant i == CubeIndex(r, g, b) && Filled(table[..], i, PaletteColour)
        {
          CubeEntry(r, g, b);
          i := SetEntry(table, i, CubeColour(r, g, b), PaletteColour);
        }
      }
    }
    var k := 0;
    while i < 256
      invariant i == 232 + k <= 256 && Filled(table[..], i, PaletteColour)
    {
      i := SetEntry(table, i, Grey(k), PaletteColour);
      k := k + 1;
    }
  }

  function PaletteColour(i: nat): Colour {
    if i < 256 then ColourAt(i) else Colour(0, 0, 0)
  }

  lemma NothingFilled(table: seq<byte>, colours: nat -> Colour)
    requires |table| == TABLE
    ensures Filled(table, 0, colours)
  {
  }

  lemma LevelBounds(v: byte, n: nat)
    ensures 255 * Level(v, n) <= v * n + 127 < 255 * Level(v, n) + 255
  {
  }

  /** Six levels: the error is at most 25, and any other level is farther. */
  lemma SixLevels(v: byte, n: nat)
    requires n < 6
    ensures Level(v, 5) < 6
    ensures Error(v, Level(v, 5) * 51) <= 25
    ensures n != Level(v, 5) ==> Error(v, n * 51) >= 26
    ensures Level(n * 51, 5) == n
  {
    hide Level;
    LevelBounds(v, 5);
    LevelBounds(n * 51, 5);
  }

  /** `rgb32_to_index` picks the cube colour nearest in squared distance. */
  lemma IndexIsNearest(rgba: nat, r: nat, g: nat, b: nat)
    requires r < 6 && g < 6 && b < 6
    ensures var c := Channels(rgba);
      var (i, j, k) := (Level(c.r, 5), Level(c.g, 5), Level(c.b, 5));
      && i < 6 && j < 6 && k < 6 && ToIndex(rgba) == CubeIndex(i, j, k)
      && Error(c.r, CubeColour(i, j, k).r) <= 25
      && Error(c.g, CubeColour(i, j, k).g) <= 25
      && Error(c.b, CubeColour(i, j, k).b) <= 25
      && Distance(c, CubeColour(i, j, k)) <= Distance(c, CubeColour(r, g, b))
  {
    hide Level, Error, Square;
    var c := Channels(rgba);
    SixLevels(c.r, r); SixLevels(c.g, g); SixLevels(c.b, b);
    CloserLevel(c.r, Level(c.r, 5) * 51, r * 51);
    CloserLevel(c.g, Level(c.g, 5) * 51, g * 51);
    CloserLevel(c.b, Level(c.b, 5) * 51, b * 51);
  }

  /**
   Quantiser and table agree: in the table that the loops build, the entry that
   `rgb32_to_index` gives for a colour holds the DAC values of the nearest cube colour.
   */
  lemma EntryShowsNearest(table: seq<byte>, rgba: nat, r: nat, g: nat, b: nat)
    requires Filled(table, 256, PaletteColour) && r < 6 && g < 6 && b < 6
    ensures var c, near := Channels(rgba), ColourAt(ToIndex(rgba));
      Shows(table, ToIndex(rgba), near) && Distance(c, near) <= Distance(c, CubeColour(r, g, b))
  {
    hide Shows, Level, Distance, Channels;
    IndexIsNearest(rgba, r, g, b);
    var c := Channels(rgba);
    CubeEntry(Level(c.r, 5), Level(c.g, 5), Level(c.b, 5));
    assert PaletteColour(ToIndex(rgba)) == ColourAt(ToIndex(rgba));
  }

  /** A cube colour maps back to its own entry. */
  lemma CubeColoursRoundTrip(rgba: nat, r: nat, g: nat, b: nat)
    requires r < 6 && g < 6 && b < 6 && Channels(rgba) == CubeColour(r, g, b)
    ensures ToIndex(rgba) == CubeIndex(r, g, b)
  {
    SixLevels(0, r); SixLevels(0, g); SixLevels(0, b);
  }

  // ---------------------------------------------------------------------------
  // The 8x8x4 cube

  function EnhancedColour(r: nat, g: nat, b: nat): Colour
    requires r < 8 && g < 8 && b < 4
  {
    Colour(r * 255 / 7, g * 255 / 7, b * 255 / 3)
  }

  function EnhancedIndexOf(r: nat, g: nat, b: nat): nat {
    r * 32 + g * 4 + b
  }

  /** `rgb32_to_enhanced_index`. */
  function ToEnhancedIndex(rgba: nat): (i: nat)
    ensures i < 256
  {
    hide Level, Channels;
    var c := Channels(rgba);
    LevelBounds(c.r, 7);
    LevelBounds(c.g, 7);
    LevelBounds(c.b, 3);
    EnhancedIndexOf(Level(c.r, 7), Level(c.g, 7), Level(c.b, 3))
  }

  function EnhancedPaletteColour(i: nat): Colour {
    if i < 256 then EnhancedColour(i / 32, i / 4 % 8, i % 4) else Colour(0, 0, 0)
  }

  lemma EnhancedEntry(r: nat, g: nat, b: nat)
    requires r < 8 && g < 8 && b < 4
    ensures EnhancedIndexOf(r, g, b) < 256
    ensures EnhancedPaletteColour(EnhancedIndexOf(r, g, b)) == EnhancedColour(r, g, b)
  {
    hide EnhancedColour;
    EnhancedDigits(r, g, b);
  }

  lemma EnhancedDigits(r: nat, g: nat, b: nat)
    requires r < 8 && g < 8 && b < 4
    ensures var n := EnhancedIndexOf(r, g, b);
      n < 256 && n / 32 == r && n / 4 % 8 == g && n % 4 == b
  {
    var n := EnhancedIndexOf(r, g, b);
    Quotient(n, 4, r * 8 + g, b);
    Quotient(r * 8 + g, 8, r, g);
    Quotient(n, 32, r, g * 4 + b);
  }

  /** `vga13_build_enhanced_palette`, up to loading the table into the DAC. */
  method BuildEnhancedPalette(table: array<byte>)
    requires table.Length == TABLE
    modifies table
    ensures Filled(table[..], 256, EnhancedPaletteColour)
  {
    hide Shows, Dac, Filled, EnhancedColour, EnhancedPaletteColour;
    NothingFilled(table[..], EnhancedPaletteColour);
    var i := 0;
    for r := 0 to 8
      invariant i == r * 32 && Filled(table[..], i, EnhancedPaletteColour)
    {
      for g := 0 to 8
        invariant i == r * 32 + g * 4 && Filled(table[..], i, EnhancedPaletteColour)
      {
        for b := 0 to 4
          invariant i == r * 32 + g * 4 + b && Filled(table[..], i, EnhancedPaletteColour)
        {
          EnhancedEntry(r, g, b);
          assert EnhancedPaletteColour(i) == EnhancedColour(r, g, b);
          i := SetEntry(table, i, EnhancedColour(r, g, b), EnhancedPaletteColour);
        }
      }
    }
  }

  /** The index map is a bijection from levels onto 0..255. */
  lemma EnhancedIndexBijective(i: nat, r: nat, g: nat, b: nat)
    requires i < 256 && r < 8 && g < 8 && b < 4
    ensures EnhancedIndexOf(r, g, b) == i <==> r == i / 32 && g == i / 4 % 8 && b == i % 4
  {
    EnhancedDigits(r, g, b);
    assert i == i / 4 * 4 + i % 4 && i / 4 == i / 4 / 8 * 8 + i / 4 % 8 && i / 4 / 8 == i / 32;
  }

  /** A colour of the 8x8x4 cube maps back to its own index. */
  lemma EnhancedColoursRoundTrip(rgba: nat, r: nat, g: nat, b: nat)
    requires r < 8 && g < 8 && b < 4 && Channels(rgba) == EnhancedColour(r, g, b)
    ensures ToEnhancedIndex(rgba) == EnhancedIndexOf(r, g, b)
  {
    EightLevels(0, r); EightLevels(0, g);
  }

  /** The eight truncated levels. */
  lemma EightTable(n: nat)
    requires n < 8
    ensures n * 255 / 7
         == if n == 0 then 0 else if n == 1 then 36 else if n == 2 then 72 else if n == 3 then 109
            else if n == 4 then 145 else if n == 5 then 182 else if n == 6 then 218 else 255
  {
  }

  /** The rounding is to the nearest of them, except for 91, which goes to 72 and not to 109. */
  lemma EightLevels(v: byte, n: nat)
    requires n < 8
    ensures Level(v, 7) < 8 && Level(n * 255 / 7, 7) == n
    ensures v != 91 ==> Error(v, Level(v, 7) * 255 / 7) <= Error(v, n * 255 / 7)
    ensures v == 91 ==> Error(v, 3 * 255 / 7) < Error(v, Level(v, 7) * 255 / 7)
  {
    hide Level;
    LevelBounds(v, 7);
    LevelBounds(n * 255 / 7, 7);
    EightTable(n);
    EightTable(Level(v, 7));
  }

  lemma FourLevels(v: byte, n: nat)
    requires n < 4
    ensures Level(v, 3) < 4 && Error(v, Level(v, 3) * 255 / 3) <= Error(v, n * 255 / 3)
  {
    hide Level;
    LevelBounds(v, 3);
    var k := Level(v, 3);
    Quotient(k * 255, 3, k * 85, 0);
    Quotient(n * 255, 3, n * 85, 0);
    assert Error(v, k * 85) <= 42;
    assert n != k ==> Error(v, n * 85) >= 43;
  }

  /** The colour of the 8x8x4 cube that `rgb32_to_enhanced_index` stands for. */
  function Quantised(c: Colour): Colour {
    EnhancedColour(Level(c.r, 7), Level(c.g, 7), Level(c.b, 3))
  }

  lemma EnhancedIndexShows(rgba: nat)
    ensures EnhancedPaletteColour(ToEnhancedIndex(rgba)) == Quantised(Channels(rgba))
  {
    hide Level, Channels, EnhancedColour;
    var c := Channels(rgba);
    LevelBounds(c.r, 7);
    LevelBounds(c.g, 7);
    LevelBounds(c.b, 3);
    EnhancedEntry(Level(c.r, 7), Level(c.g, 7), Level(c.b, 3));
  }

  /**
   The entry that the enhanced quantiser gives for a colour stands for a nearest
   colour of its cube exactly when neither red nor green is 91.
   */
  lemma EnhancedNearestExactly(rgba: nat)
    ensures var c, near := Channels(rgba), EnhancedPaletteColour(ToEnhancedIndex(rgba));
      (forall r, g, b :: 0 <= r < 8 && 0 <= g < 8 && 0 <= b < 4 ==>
         Distance(c, near) <= Distance(c, EnhancedColour(r, g, b)))
      <==> c.r != 91 && c.g != 91
  {
    hide *;
    EnhancedIndexShows(rgba);
    QuantisedNearestExactly(Channels(rgba));
  }

  lemma QuantisedNearestExactly(c: Colour)
    ensures (forall r, g, b :: 0 <= r < 8 && 0 <= g < 8 && 0 <= b < 4 ==>
               Distance(c, Quantised(c)) <= Distance(c, EnhancedColour(r, g, b)))
       <==> c.r != 91 && c.g != 91
  {
    hide Error, Square, Level;
    EightLevels(c.r, 0); EightLevels(c.g, 0); FourLevels(c.b, 0);
    if c.r != 91 && c.g != 91 {
      forall r, g, b | 0 <= r < 8 && 0 <= g < 8 && 0 <= b < 4
        ensures Distance(c, Quantised(c)) <= Distance(c, EnhancedColour(r, g, b))
      {
        EightLevels(c.r, r); EightLevels(c.g, g); FourLevels(c.b, b);
        CloserLevel(c.r, Quantised(c).r, r * 255 / 7);
        CloserLevel(c.g, Quantised(c).g, g * 255 / 7);
        CloserLevel(c.b, Quantised(c).b, b * 255 / 3);
      }
    } else {
      var r := if c.r == 91 then 3 else Level(c.r, 7);
      var g := if c.g == 91 then 3 else Level(c.g, 7);
      if c.r == 91 { CloserLevel(c.r, r * 255 / 7, Quantised(c).r); }
      if c.g == 91 { CloserLevel(c.g, g * 255 / 7, Quantised(c).g); }
      assert Distance(c, EnhancedColour(r, g, Level(c.b, 3))) < Distance(c, Quantised(c));
    }
  }

  /** Red 91 is taken to level 2, which stands for 72, although level 3 stands for 109, which is nearer. */
  lemma NinetyOneMisses()
    ensures Channels(0x5B0000) == Colour(91, 0, 0)
    ensures ToEnhancedIndex(0x5B0000) == EnhancedIndexOf(2, 0, 0)
    ensures Distance(Colour(91, 0, 0), EnhancedColour(3, 0, 0)) == 324
    ensures Distance(Colour(91, 0, 0), EnhancedColour(2, 0, 0)) == 361
  {
    hide Channels, Level, EnhancedColour, Square, EnhancedIndexOf;
    NinetyOneChannels();
    LevelsAround(91);
    LevelsAround(0);
    EnhancedReds(2);
    EnhancedReds(3);
    Squares();
  }

  lemma NinetyOneChannels()
    ensures Channels(0x5B0000) == Colour(91, 0, 0)
  {
  }

  lemma LevelsAround(v: byte)
    ensures v == 91 ==> Level(v, 7) == 2
    ensures v == 0 ==> Level(v, 7) == 0 && Level(v, 3) == 0
  {
    hide Level;
    LevelBounds(v, 7);
    LevelBounds(v, 3);
  }

  lemma EnhancedReds(r: nat)
    requires r < 8
    ensures r == 2 ==> EnhancedColour(r, 0, 0) == Colour(72, 0, 0)
    ensures r == 3 ==> EnhancedColour(r, 0, 0) == Colour(109, 0, 0)
  {
    EightTable(r);
  }

  lemma Squares()
    ensures Square(91 - 109) == 324 && Square(91 - 72) == 361 && Square(0 - 0) == 0
  {
  }

  // ---------------------------------------------------------------------------
  // Colours and tables by value

  /** The channels of a packed colour, whatever its top byte. */
  lemma PackedChannels(top: nat, r: byte, g: byte, b: byte)
    ensures Channels(top * 0x100_0000 + r * 0x1_0000 + g * 0x100 + b) == Colour(r, g, b)
  {
    var n := top * 0x100_0000 + r * 0x1_0000 + g * 0x100 + b;
    Quotient(n, 0x1_0000, top * 0x100 + r, g * 0x100 + b);
    Quotient(top * 0x100 + r, 0x100, top, r);
    Quotient(n, 0x100, top * 0x1_0000 + r * 0x100 + g, b);
    Quotient(top * 0x1_0000 + r * 0x100 + g, 0x100, top * 0x100 + r, g);
  }

  /** Of the 64 DAC levels, `d` is the one nearest to `x` of 255. */
  predicate IsNearest6(d: byte, x: int) {
    d < 64 && -127 <= 255 * d - 63 * x <= 127
  }

  lemma DacIsNearest(x: byte, d: byte)
    ensures IsNearest6(d, x) <==> d == ToDac6(x)
  {
  }

  /** Entry `i` of the table holds the DAC levels nearest to a colour. */
  predicate Loads(table: seq<byte>, i: nat, r: int, g: int, b: int) {
    && |table| == 768 && i < 256
    && IsNearest6(table[3 * i], r) && IsNearest6(table[3 * i + 1], g) && IsNearest6(table[3 * i + 2], b)
  }

  lemma ShownLoads(table: seq<byte>, i: nat, c: Colour)
    requires |table| == TABLE && i < 256 && Shows(table, i, c)
    ensures Loads(table, i, c.r, c.g, c.b)
  {
    hide ToDac6, IsNearest6;
    var entry := table[i * 3..i * 3 + 3];
    assert entry[0] == table[3 * i] && entry[1] == table[3 * i + 1] && entry[2] == table[3 * i + 2];
    DacIsNearest(c.r, table[3 * i]);
    DacIsNearest(c.g, table[3 * i + 1]);
    DacIsNearest(c.b, table[3 * i + 2]);
  }

  /** The first palette: 16 black entries, the cube in steps of 51 from entry 16, the greys from entry 232. */
  lemma PaletteByValue(table: seq<byte>, i: nat, r: nat, g: nat, b: nat, k: nat)
    requires Filled(table, 256, PaletteColour) && i < 16 && r < 6 && g < 6 && b < 6 && k < 24
    ensures Loads(table, i, 0, 0, 0)
    ensures Loads(table, 16 + 36 * r + 6 * g + b, 51 * r, 51 * g, 51 * b)
    ensures Loads(table, 232 + k, 255 * k / 23, 255 * k / 23, 255 * k / 23)
  {
    hide Shows, Loads;
    CubeEntry(r, g, b);
    ShownLoads(table, i, PaletteColour(i));
    ShownLoads(table, CubeIndex(r, g, b), PaletteColour(CubeIndex(r, g, b)));
    ShownLoads(table, 232 + k, PaletteColour(232 + k));
  }

  /** The second: eight reds, eight greens and four blues, from 0 to 255, truncated to integers. */
  lemma EnhancedPaletteByValue(table: seq<byte>, r: nat, g: nat, b: nat)
    requires Filled(table, 256, EnhancedPaletteColour) && r < 8 && g < 8 && b < 4
    ensures Loads(table, 32 * r + 4 * g + b, 255 * r / 7, 255 * g / 7, 85 * b)
  {
    hide Shows, Loads, EnhancedColour, EnhancedPaletteColour;
    EnhancedEntry(r, g, b);
    ShownLoads(table, EnhancedIndexOf(r, g, b), EnhancedColour(r, g, b));
    EnhancedLevels(r, g, b);
  }

  lemma EnhancedLevels(r: nat, g: nat, b: nat)
    requires r < 8 && g < 8 && b < 4
    ensures EnhancedColour(r, g, b) == Colour(255 * r / 7, 255 * g / 7, 85 * b)
  {
    assert r * 255 == 255 * r && g * 255 == 255 * g;
    Quotient(b * 255, 3, b * 85, 0);
  }

  /** The index of a packed colour: entry 16 + 36r + 6g + b for the cube levels at most 25 off. */
  lemma IndexByValue(top: nat, red: byte, green: byte, blue: byte, r: nat, g: nat, b: nat)
    requires r < 6 && g < 6 && b < 6
    ensures ToIndex(top * 0x100_0000 + red * 0x1_0000 + green * 0x100 + blue) == 16 + 36 * r + 6 * g + b
       <==> -25 <= red - 51 * r <= 25 && -25 <= green - 51 * g <= 25 && -25 <= blue - 51 * b <= 25
  {
    hide Level, Channels;
    PackedChannels(top, red, green, blue);
    SixLevels(red, r);
    SixLevels(green, g);
    SixLevels(blue, b);
    CubeDigits(r, g, b);
    CubeDigits(Level(red, 5), Level(green, 5), Level(blue, 5));
  }
}
