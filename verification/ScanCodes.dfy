/** The scan-code set 1 transducer of the keyboard interrupt. */
module ScanCodes {
  import opened Bytes

  datatype Layout = US | ES

  const EXTENDED: byte := 0xE0
  const LEFT_SHIFT: byte := 0x2A
  const RIGHT_SHIFT: byte := 0x36
  const CAPS_LOCK: byte := 0x3A
  const ENTER: byte := 0x1C

  /** Rows of the four tables; `\0` marks a key that emits nothing. */
  function DigitRow(l: Layout, shift: bool): string {
    match l
    case US => if shift then "!@#$%^&*()_+" else "1234567890-="
    case ES => if shift then "!\"#$%&/()=?\0" else "1234567890'\0"
  }

  const TOP_LETTERS: string := "qwertyuiop"
  const HOME_LETTERS: string := "asdfghjkl"
  const BOTTOM_LETTERS: string := "zxcvbnm"
  const TOP_CAPITALS: string := "QWERTYUIOP"
  const HOME_CAPITALS: string := "ASDFGHJKL"
  const BOTTOM_CAPITALS: string := "ZXCVBNM"

  function TopRow(l: Layout, shift: bool): string {
    match l
    case US => if shift then TOP_CAPITALS + "{}" else TOP_LETTERS + "[]"
    case ES => if shift then TOP_CAPITALS + "]*" else TOP_LETTERS + "[+"
  }

  function HomeRow(l: Layout, shift: bool): string {
    match l
    case US => if shift then HOME_CAPITALS + ":\"~" else HOME_LETTERS + ";'`"
    case ES => if shift then HOME_CAPITALS + "\U{A5}\"~" else HOME_LETTERS + "\U{A4}'`"
  }

  function BottomRow(l: Layout, shift: bool): string {
    match l
    case US => if shift then BOTTOM_CAPITALS + "<>?" else BOTTOM_LETTERS + ",./"
    case ES => if shift then BOTTOM_CAPITALS + ";:_" else BOTTOM_LETTERS + ",.-"
  }

  const KEYPAD: string := "789-456+1230."

  /** `g_shift[sc]` or `g_unshift[sc]`. */
  function Table(l: Layout, shift: bool, sc: byte): byte {
    if sc == 0x01 then 27
    else if 0x02 <= sc <= 0x0D then AsByte(DigitRow(l, shift)[sc - 0x02] as int)
    else if sc == 0x0E then BACKSPACE
    else if sc == 0x0F then (if l == US then 9 else 0)
    else if 0x10 <= sc <= 0x1B then AsByte(TopRow(l, shift)[sc - 0x10] as int)
    else if sc == ENTER then LF
    else if 0x1E <= sc <= 0x29 then AsByte(HomeRow(l, shift)[sc - 0x1E] as int)
    else if sc == 0x2B then (if shift then 0x7C else 0x5C)
    else if 0x2C <= sc <= 0x35 then AsByte(BottomRow(l, shift)[sc - 0x2C] as int)
    else if sc == 0x39 then SPACE
    else if 0x4A <= sc <= 0x56 then AsByte(KEYPAD[sc - 0x4A] as int)
    else 0
  }

  /** The modifier flags; `seenE0` is stored by the interrupt and never read. */
  datatype Mods = Mods(left: bool, right: bool, caps: bool, seenE0: bool)

  const INITIAL: Mods := Mods(false, false, false, false)

  function ApplyCaps(ch: byte, shift: bool, caps: bool): byte {
    if !shift && caps && 'a' as int <= ch <= 'z' as int then ch - 32
    else if shift && caps && 'A' as int <= ch <= 'Z' as int then ch + 32
    else ch
  }

  /** The byte a pressed key yields, 0 for none. */
  function KeyByte(l: Layout, shift: bool, caps: bool, sc: byte): byte {
    ApplyCaps(Table(l, shift, sc), shift, caps)
  }

  /** One scan code: the new flags and the bytes handed to `kbd_put`. */
  function Scan(l: Layout, m: Mods, sc: byte): (Mods, seq<byte>) {
    if sc == EXTENDED then (m.(seenE0 := true), [])
    else if sc >= 0x80 then
      (m.(left := m.left && sc != LEFT_SHIFT + 0x80, right := m.right && sc != RIGHT_SHIFT + 0x80), [])
    else if sc == LEFT_SHIFT then (m.(left := true), [])
    else if sc == RIGHT_SHIFT then (m.(right := true), [])
    else if sc == CAPS_LOCK then (m.(caps := !m.caps), [])
    else
      var ch := KeyByte(l, m.left || m.right, m.caps, sc);
      (m, if ch != 0 then [ch] else [])
  }

  /** The flags after `codes`. */
  function Flags(l: Layout, codes: seq<byte>): Mods {
    if codes == [] then INITIAL
    else Scan(l, Flags(l, codes[..|codes| - 1]), codes[|codes| - 1]).0
  }

  /** The bytes that `codes` hand to `kbd_put`. */
  function Decode(l: Layout, codes: seq<byte>): seq<byte> {
    if codes == [] then []
    else
      var front := codes[..|codes| - 1];
      Decode(l, front) + Scan(l, Flags(l, front), codes[|codes| - 1]).1
  }

  lemma DecodeAppend(l: Layout, codes: seq<byte>, sc: byte)
    ensures Flags(l, codes + [sc]) == Scan(l, Flags(l, codes), sc).0
    ensures Decode(l, codes + [sc]) == Decode(l, codes) + Scan(l, Flags(l, codes), sc).1
  {
    assert (codes + [sc])[..|codes|] == codes;
  }

  /** The last make or break code of the key in `codes` is a make. */
  ghost predicate Held(codes: seq<byte>, make: byte)
    requires make < 0x80
  {
    exists i :: HeldFrom(codes, i, make)
  }

  ghost predicate HeldFrom(codes: seq<byte>, i: int, make: byte)
    requires make < 0x80
  {
    0 <= i < |codes| && codes[i] == make && forall j :: i < j < |codes| ==> codes[j] != make + 0x80
  }

  lemma HeldAppend(codes: seq<byte>, sc: byte, make: byte)
    requires make < 0x80
    ensures Held(codes + [sc], make) <==> sc == make || (Held(codes, make) && sc != make + 0x80)
  {
    var all := codes + [sc];
    if sc == make {
      assert HeldFrom(all, |codes|, make);
    }
    if Held(codes, make) && sc != make + 0x80 {
      var i :| HeldFrom(codes, i, make);
      assert HeldFrom(all, i, make);
    }
    if Held(all, make) && sc != make {
      var i :| HeldFrom(all, i, make);
      assert all[|codes|] == sc && forall j :: 0 <= j < |codes| ==> all[j] == codes[j];
      assert HeldFrom(codes, i, make);
    }
  }

  lemma ScanFlags(l: Layout, m: Mods, sc: byte)
    ensures Scan(l, m, sc).0 == Mods(
      sc == LEFT_SHIFT || (m.left && sc != LEFT_SHIFT + 0x80),
      sc == RIGHT_SHIFT || (m.right && sc != RIGHT_SHIFT + 0x80),
      m.caps != (sc == CAPS_LOCK),
      m.seenE0 || sc == EXTENDED)
  {
    hide KeyByte;
  }

  /** What the flags mean, for every trace. */
  lemma {:induction false} FlagsMeaning(l: Layout, codes: seq<byte>)
    ensures var m := Flags(l, codes);
      && (m.left <==> Held(codes, 0x2A))
      && (m.right <==> Held(codes, 0x36))
      && (m.caps <==> multiset(codes)[0x3A] % 2 == 1)
      && (m.seenE0 <==> 0xE0 in codes)
  {
    if codes != [] {
      var front, sc := codes[..|codes| - 1], codes[|codes| - 1];
      assert codes == front + [sc];
      FlagsMeaning(l, front);
      hide Scan, Held;
      ScanFlags(l, Flags(l, front), sc);
      HeldAppend(front, sc, LEFT_SHIFT);
      HeldAppend(front, sc, RIGHT_SHIFT);
    }
  }

  function WithoutExtended(codes: seq<byte>): seq<byte> {
    if codes == [] then []
    else
      var front := WithoutExtended(codes[..|codes| - 1]);
      if codes[|codes| - 1] == EXTENDED then front else front + [codes[|codes| - 1]]
  }

  lemma ScanIgnoresExtended(l: Layout, m: Mods, sc: byte)
    requires sc != EXTENDED
    ensures Scan(l, m.(seenE0 := false), sc) == (Scan(l, m, sc).0.(seenE0 := false), Scan(l, m, sc).1)
  {
    hide KeyByte;
  }

  /** The extended prefix never changes the output: the byte after it is an ordinary code. */
  lemma {:induction false} ExtendedIsIgnored(l: Layout, codes: seq<byte>)
    ensures Decode(l, WithoutExtended(codes)) == Decode(l, codes)
    ensures Flags(l, WithoutExtended(codes)) == Flags(l, codes).(seenE0 := false)
  {
    if codes != [] {
      var front, sc := codes[..|codes| - 1], codes[|codes| - 1];
      ExtendedIsIgnored(l, front);
      if sc != EXTENDED {
        hide Scan;
        DecodeAppend(l, WithoutExtended(front), sc);
        ScanIgnoresExtended(l, Flags(l, front), sc);
      } else {
        hide KeyByte;
      }
    }
  }

  /** The letter keys of a PC keyboard, by position: 0 for any other key. */
  function LetterOf(sc: byte): byte {
    if 0x10 <= sc <= 0x19 then AsByte(TOP_LETTERS[sc - 0x10] as int)
    else if 0x1E <= sc <= 0x26 then AsByte(HOME_LETTERS[sc - 0x1E] as int)
    else if 0x2C <= sc <= 0x32 then AsByte(BOTTOM_LETTERS[sc - 0x2C] as int)
    else 0
  }

  predicate IsLetter(ch: byte) {
    'a' as int <= ch <= 'z' as int || 'A' as int <= ch <= 'Z' as int
  }

  /** `c` is a small letter and `capital` its capital. */
  predicate IsPair(c: char, capital: char) {
    'a' <= c <= 'z' && capital as int == c as int - 32
  }

  lemma TopPairs(i: nat)
    requires i < 10
    ensures IsPair(TOP_LETTERS[i], TOP_CAPITALS[i])
  {
  }

  lemma HomePairs(i: nat)
    requires i < 9
    ensures IsPair(HOME_LETTERS[i], HOME_CAPITALS[i])
  {
  }

  lemma BottomPairs(i: nat)
    requires i < 7
    ensures IsPair(BOTTOM_LETTERS[i], BOTTOM_CAPITALS[i])
  {
  }

  lemma PairBytes(c: char, capital: char)
    requires IsPair(c, capital)
    ensures 'a' as int <= AsByte(c as int) <= 'z' as int
    ensures AsByte(capital as int) == AsByte(c as int) - 32
  {
    hide AsByte;
    ByteItself(c as int);
    ByteItself(capital as int);
  }

  lemma ByteItself(k: int)
    requires 0 <= k < 256
    ensures AsByte(k) == k
  {
  }

  lemma LetterTable(l: Layout, shift: bool, sc: byte)
    requires LetterOf(sc) != 0
    ensures 'a' as int <= LetterOf(sc) <= 'z' as int
    ensures Table(l, shift, sc) == if shift then LetterOf(sc) - 32 else LetterOf(sc)
  {
    LetterPositions(sc);
    hide DigitRow, KEYPAD, AsByte, IsPair, TOP_LETTERS, TOP_CAPITALS, HOME_LETTERS, HOME_CAPITALS, BOTTOM_LETTERS,
      BOTTOM_CAPITALS;
    RowLengths();
    if sc <= 0x19 {
      TopPairs(sc - 0x10);
      PairBytes(TOP_LETTERS[sc - 0x10], TOP_CAPITALS[sc - 0x10]);
    } else if sc <= 0x26 {
      HomePairs(sc - 0x1E);
      PairBytes(HOME_LETTERS[sc - 0x1E], HOME_CAPITALS[sc - 0x1E]);
    } else {
      BottomPairs(sc - 0x2C);
      PairBytes(BOTTOM_LETTERS[sc - 0x2C], BOTTOM_CAPITALS[sc - 0x2C]);
    }
  }

  lemma RowLengths()
    ensures |TOP_LETTERS| == |TOP_CAPITALS| == 10
    ensures |HOME_LETTERS| == |HOME_CAPITALS| == 9
    ensures |BOTTOM_LETTERS| == |BOTTOM_CAPITALS| == 7
  {
  }

  lemma LetterKeyByte(l: Layout, shift: bool, caps: bool, sc: byte)
    requires LetterOf(sc) != 0
    ensures 'a' as int <= LetterOf(sc) <= 'z' as int
    ensures KeyByte(l, shift, caps, sc) == if shift != caps then LetterOf(sc) - 32 else LetterOf(sc)
  {
    hide Table, LetterOf;
    LetterTable(l, shift, sc);
  }

  /**
   After any trace, a letter key emits upper case exactly when "some shift is
   held" differs from "caps lock was pressed an odd number of times".
   */
  lemma LetterCase(l: Layout, codes: seq<byte>, sc: byte)
    requires LetterOf(sc) != 0
    ensures var shift := Held(codes, LEFT_SHIFT) || Held(codes, RIGHT_SHIFT);
      var caps := multiset(codes)[CAPS_LOCK] % 2 == 1;
      Decode(l, codes + [sc]) == Decode(l, codes) + [if shift != caps then LetterOf(sc) - 32 else LetterOf(sc)]
  {
    hide KeyByte, LetterOf, Held;
    FlagsMeaning(l, codes);
    DecodeAppend(l, codes, sc);
    var m := Flags(l, codes);
    LetterKeyByte(l, m.left || m.right, m.caps, sc);
    LetterKeys(sc);
  }

  lemma LetterKeys(sc: byte)
    ensures LetterOf(sc) != 0 ==> sc < 0x80
    ensures LetterOf(LEFT_SHIFT) == LetterOf(RIGHT_SHIFT) == LetterOf(CAPS_LOCK) == 0
  {
  }

  /** No letter, no carriage return, and plain ASCII on the US layout. */
  predicate IsSymbol(l: Layout, ch: byte) {
    !IsLetter(ch) && ch != CR && (l == US ==> ch < 0x80)
  }

  lemma DigitRowSymbols(l: Layout, shift: bool, i: nat)
    requires i < 12
    ensures IsSymbol(l, AsByte(DigitRow(l, shift)[i] as int))
  {
  }

  lemma TopRowEnd(l: Layout, shift: bool, i: nat)
    requires 10 <= i < 12
    ensures |TopRow(l, shift)| == 12 && IsSymbol(l, AsByte(TopRow(l, shift)[i] as int))
  {
    hide TOP_LETTERS, TOP_CAPITALS;
    RowLengths();
  }

  lemma HomeRowEnd(l: Layout, shift: bool, i: nat)
    requires 9 <= i < 12
    ensures |HomeRow(l, shift)| == 12 && IsSymbol(l, AsByte(HomeRow(l, shift)[i] as int))
  {
    hide HOME_LETTERS, HOME_CAPITALS;
    RowLengths();
  }

  lemma BottomRowEnd(l: Layout, shift: bool, i: nat)
    requires 7 <= i < 10
    ensures |BottomRow(l, shift)| == 10 && IsSymbol(l, AsByte(BottomRow(l, shift)[i] as int))
  {
    hide BOTTOM_LETTERS, BOTTOM_CAPITALS;
    RowLengths();
  }

  lemma KeypadSymbols(l: Layout, i: nat)
    requires i < 13
    ensures IsSymbol(l, AsByte(KEYPAD[i] as int))
  {
  }

  lemma LetterPositions(sc: byte)
    ensures LetterOf(sc) != 0 <==> 0x10 <= sc <= 0x19 || 0x1E <= sc <= 0x26 || 0x2C <= sc <= 0x32
  {
  }

  lemma SymbolTable(l: Layout, shift: bool, sc: byte)
    requires LetterOf(sc) == 0
    ensures IsSymbol(l, Table(l, shift, sc))
  {
    hide LetterOf, DigitRow, TopRow, HomeRow, BottomRow, KEYPAD, AsByte;
    LetterPositions(sc);
    if 0x02 <= sc <= 0x0D {
      DigitRowSymbols(l, shift, sc - 0x02);
    } else if 0x1A <= sc <= 0x1B {
      TopRowEnd(l, shift, sc - 0x10);
    } else if 0x27 <= sc <= 0x29 {
      HomeRowEnd(l, shift, sc - 0x1E);
    } else if 0x33 <= sc <= 0x35 {
      BottomRowEnd(l, shift, sc - 0x2C);
    } else if 0x4A <= sc <= 0x56 {
      KeypadSymbols(l, sc - 0x4A);
    }
  }

  /** Any other pressed key emits its table entry, whatever caps lock says. */
  lemma OtherKeys(l: Layout, codes: seq<byte>, sc: byte)
    requires sc < 0x80 && LetterOf(sc) == 0 && sc !in {LEFT_SHIFT, RIGHT_SHIFT, CAPS_LOCK}
    ensures var ch := Table(l, Held(codes, LEFT_SHIFT) || Held(codes, RIGHT_SHIFT), sc);
      Decode(l, codes + [sc]) == Decode(l, codes) + if ch != 0 then [ch] else []
  {
    hide Table, LetterOf, Held;
    FlagsMeaning(l, codes);
    DecodeAppend(l, codes, sc);
    var m := Flags(l, codes);
    SymbolTable(l, m.left || m.right, sc);
  }

  lemma KeyByteRange(l: Layout, shift: bool, caps: bool, sc: byte)
    ensures KeyByte(l, shift, caps, sc) != CR
    ensures l == US ==> KeyByte(l, shift, caps, sc) < 0x80
  {
    hide Table, LetterOf;
    if LetterOf(sc) != 0 {
      LetterKeyByte(l, shift, caps, sc);
    } else {
      SymbolTable(l, shift, sc);
    }
  }

  /** The interrupt never queues 0 or CR, and on the US layout only ASCII. */
  lemma {:induction false} DecodeRange(l: Layout, codes: seq<byte>)
    ensures 0 !in Decode(l, codes) && CR !in Decode(l, codes)
    ensures l == US ==> forall b :: b in Decode(l, codes) ==> b < 0x80
  {
    hide KeyByte;
    if codes != [] {
      var front := codes[..|codes| - 1];
      DecodeRange(l, front);
      var m := Flags(l, front);
      KeyByteRange(l, m.left || m.right, m.caps, codes[|codes| - 1]);
    }
  }

  // ---------------------------------------------------------------------------
  // The keys by value: what each scan code types after any trace

  /** Some shift key, 0x2A or 0x36, was pressed later than it was released. */
  ghost predicate ShiftHeld(codes: seq<byte>) {
    Held(codes, 0x2A) || Held(codes, 0x36)
  }

  /** Caps lock, 0x3A, was pressed an odd number of times. */
  ghost predicate CapsOn(codes: seq<byte>) {
    multiset(codes)[0x3A] % 2 == 1
  }

  ghost predicate Emits(l: Layout, codes: seq<byte>, sc: byte, ch: byte) {
    Decode(l, codes + [sc]) == Decode(l, codes) + [ch]
  }

  ghost predicate Silent(l: Layout, codes: seq<byte>, sc: byte) {
    Decode(l, codes + [sc]) == Decode(l, codes)
  }

  /** The key gives one character without and another with shift, whatever caps lock says. */
  ghost predicate Types(l: Layout, codes: seq<byte>, sc: byte, plain: char, shifted: char) {
    var ch := if ShiftHeld(codes) then shifted else plain;
    ch as int < 256 && Emits(l, codes, sc, ch as int)
  }

  /** The key gives a letter, a capital when just one of shift and caps lock is on. */
  ghost predicate TypesLetter(l: Layout, codes: seq<byte>, sc: byte, small: char, capital: char) {
    var ch := if ShiftHeld(codes) != CapsOn(codes) then capital else small;
    ch as int < 256 && Emits(l, codes, sc, ch as int)
  }

  lemma LetterIs(l: Layout, codes: seq<byte>, sc: byte, small: char, capital: char)
    requires IsPair(small, capital) && LetterOf(sc) == AsByte(small as int)
    ensures TypesLetter(l, codes, sc, small, capital)
  {
    hide LetterOf, Held, Decode, AsByte;
    PairBytes(small, capital);
    ByteItself(small as int);
    LetterCase(l, codes, sc);
  }

  /** The letter keys, on both layouts. */
  lemma LetterKeysType(l: Layout, codes: seq<byte>)
    ensures forall i :: 0 <= i < 10 ==> TypesLetter(l, codes, 0x10 + i, "qwertyuiop"[i], "QWERTYUIOP"[i])
    ensures forall i :: 0 <= i < 9 ==> TypesLetter(l, codes, 0x1E + i, "asdfghjkl"[i], "ASDFGHJKL"[i])
    ensures forall i :: 0 <= i < 7 ==> TypesLetter(l, codes, 0x2C + i, "zxcvbnm"[i], "ZXCVBNM"[i])
  {
    hide TypesLetter, AsByte, IsPair;
    forall i | 0 <= i < 10
      ensures TypesLetter(l, codes, 0x10 + i, "qwertyuiop"[i], "QWERTYUIOP"[i])
    {
      TopPairs(i);
      LetterIs(l, codes, 0x10 + i, TOP_LETTERS[i], TOP_CAPITALS[i]);
    }
    forall i | 0 <= i < 9
      ensures TypesLetter(l, codes, 0x1E + i, "asdfghjkl"[i], "ASDFGHJKL"[i])
    {
      HomePairs(i);
      LetterIs(l, codes, 0x1E + i, HOME_LETTERS[i], HOME_CAPITALS[i]);
    }
    forall i | 0 <= i < 7
      ensures TypesLetter(l, codes, 0x2C + i, "zxcvbnm"[i], "ZXCVBNM"[i])
    {
      BottomPairs(i);
      LetterIs(l, codes, 0x2C + i, BOTTOM_LETTERS[i], BOTTOM_CAPITALS[i]);
    }
  }

  /** The table holds `plain` for the key, or `shifted` with shift. */
  predicate HasLegend(l: Layout, sc: byte, plain: char, shifted: char) {
    && 0 < plain as int < 256 && 0 < shifted as int < 256
    && Table(l, false, sc) == plain as int && Table(l, true, sc) == shifted as int
  }

  predicate IsOther(sc: byte) {
    sc < 0x80 && LetterOf(sc) == 0 && sc != LEFT_SHIFT && sc != RIGHT_SHIFT && sc != CAPS_LOCK
  }

  lemma LegendIs(l: Layout, codes: seq<byte>, sc: byte, plain: char, shifted: char)
    requires IsOther(sc) && HasLegend(l, sc, plain, shifted)
    ensures Types(l, codes, sc, plain, shifted)
  {
    hide LetterOf, Held, Decode, Table;
    OtherKeys(l, codes, sc);
  }

  lemma OtherPositions(sc: byte)
    ensures IsOther(sc) <==>
      || sc <= 0x0F || 0x1A <= sc <= 0x1D || 0x27 <= sc <= 0x29 || sc == 0x2B || 0x33 <= sc <= 0x35
      || 0x37 <= sc <= 0x39 || 0x3B <= sc < 0x80
  {
    hide LetterOf;
    LetterPositions(sc);
  }

  lemma KeypadLegend(l: Layout, i: nat)
    requires i < 13
    ensures HasLegend(l, 0x4A + i, "789-456+1230."[i], "789-456+1230."[i])
  {
  }

  lemma UsDigitLegend(i: nat)
    requires i < 12
    ensures HasLegend(US, 0x02 + i, "1234567890-="[i], "!@#$%^&*()_+"[i])
  {
  }

  lemma EsDigitLegend(i: nat)
    requires i < 11
    ensures HasLegend(ES, 0x02 + i, "1234567890'"[i], "!\"#$%&/()=?"[i])
  {
  }

  lemma CommonLegends(l: Layout, shift: bool)
    ensures Table(l, shift, 0x01) == 27 && Table(l, shift, 0x0E) == 8
    ensures Table(l, shift, 0x1C) == 10 && Table(l, shift, 0x39) == 32
    ensures HasLegend(l, 0x2B, '\\', '|')
    ensures Table(US, shift, 0x0F) == 9
  {
  }

  lemma UsTopLegends()
    ensures HasLegend(US, 0x1A, '[', '{') && HasLegend(US, 0x1B, ']', '}')
  {
  }

  lemma UsHomeLegends()
    ensures HasLegend(US, 0x27, ';', ':') && HasLegend(US, 0x28, '\'', '"') && HasLegend(US, 0x29, '`', '~')
  {
  }

  lemma UsBottomLegends()
    ensures HasLegend(US, 0x33, ',', '<') && HasLegend(US, 0x34, '.', '>') && HasLegend(US, 0x35, '/', '?')
  {
  }

  lemma EsTopLegends()
    ensures HasLegend(ES, 0x1A, '[', ']') && HasLegend(ES, 0x1B, '+', '*')
  {
  }

  lemma EsHomeLegends()
    ensures HasLegend(ES, 0x27, '\U{A4}', '\U{A5}')
    ensures HasLegend(ES, 0x28, '\'', '"') && HasLegend(ES, 0x29, '`', '~')
  {
  }

  lemma EsBottomLegends()
    ensures HasLegend(ES, 0x33, ',', ';') && HasLegend(ES, 0x34, '.', ':') && HasLegend(ES, 0x35, '-', '_')
  {
  }

  /** The keys that both layouts share. */
  lemma CommonKeysType(l: Layout, codes: seq<byte>)
    ensures Emits(l, codes, 0x01, 27) && Emits(l, codes, 0x0E, 8)
    ensures Emits(l, codes, 0x1C, 10) && Emits(l, codes, 0x39, 32)
    ensures Types(l, codes, 0x2B, '\\', '|')
    ensures forall i :: 0 <= i < 13 ==> Types(l, codes, 0x4A + i, "789-456+1230."[i], "789-456+1230."[i])
  {
    hide Types, HasLegend, Table, IsOther, Held, Decode, LetterOf;
    CommonLegends(l, ShiftHeld(codes));
    OtherIs(l, codes, 0x01);
    OtherIs(l, codes, 0x0E);
    OtherIs(l, codes, 0x1C);
    OtherIs(l, codes, 0x39);
    OtherPositions(0x2B);
    LegendIs(l, codes, 0x2B, '\\', '|');
    forall i | 0 <= i < 13
      ensures Types(l, codes, 0x4A + i, "789-456+1230."[i], "789-456+1230."[i])
    {
      OtherPositions(0x4A + i);
      KeypadLegend(l, i);
      LegendIs(l, codes, 0x4A + i, "789-456+1230."[i], "789-456+1230."[i]);
    }
  }

  lemma OtherIs(l: Layout, codes: seq<byte>, sc: byte)
    requires sc == 0x01 || sc == 0x0E || sc == 0x0F || sc == 0x1C || sc == 0x39
    ensures var ch := Table(l, ShiftHeld(codes), sc);
      Decode(l, codes + [sc]) == Decode(l, codes) + if ch != 0 then [ch] else []
  {
    hide LetterOf, Held, Decode, Table;
    LetterPositions(sc);
    OtherKeys(l, codes, sc);
  }

  lemma UsKeysType(codes: seq<byte>)
    ensures Emits(US, codes, 0x0F, 9)
    ensures forall i :: 0 <= i < 12 ==> Types(US, codes, 0x02 + i, "1234567890-="[i], "!@#$%^&*()_+"[i])
    ensures Types(US, codes, 0x1A, '[', '{') && Types(US, codes, 0x1B, ']', '}')
    ensures Types(US, codes, 0x27, ';', ':') && Types(US, codes, 0x28, '\'', '"') && Types(US, codes, 0x29, '`', '~')
    ensures Types(US, codes, 0x33, ',', '<') && Types(US, codes, 0x34, '.', '>') && Types(US, codes, 0x35, '/', '?')
  {
    hide Types, HasLegend, Table, IsOther, Held, Decode, LetterOf;
    CommonLegends(US, ShiftHeld(codes));
    OtherIs(US, codes, 0x0F);
    forall i | 0 <= i < 12
      ensures Types(US, codes, 0x02 + i, "1234567890-="[i], "!@#$%^&*()_+"[i])
    {
      OtherPositions(0x02 + i);
      UsDigitLegend(i);
      LegendIs(US, codes, 0x02 + i, "1234567890-="[i], "!@#$%^&*()_+"[i]);
    }
    UsTopLegends();
    UsHomeLegends();
    UsBottomLegends();
    EndKeysAreOther();
    LegendIs(US, codes, 0x1A, '[', '{');
    LegendIs(US, codes, 0x1B, ']', '}');
    LegendIs(US, codes, 0x27, ';', ':');
    LegendIs(US, codes, 0x28, '\'', '"');
    LegendIs(US, codes, 0x29, '`', '~');
    LegendIs(US, codes, 0x33, ',', '<');
    LegendIs(US, codes, 0x34, '.', '>');
    LegendIs(US, codes, 0x35, '/', '?');
  }

  lemma EndKeysAreOther()
    ensures IsOther(0x1A) && IsOther(0x1B) && IsOther(0x27) && IsOther(0x28) && IsOther(0x29)
    ensures IsOther(0x33) && IsOther(0x34) && IsOther(0x35)
  {
  }

  lemma EsKeysType(codes: seq<byte>)
    ensures Silent(ES, codes, 0x0D) && Silent(ES, codes, 0x0F)
    ensures forall i :: 0 <= i < 11 ==> Types(ES, codes, 0x02 + i, "1234567890'"[i], "!\"#$%&/()=?"[i])
    ensures Types(ES, codes, 0x1A, '[', ']') && Types(ES, codes, 0x1B, '+', '*')
    ensures Types(ES, codes, 0x27, '\U{A4}', '\U{A5}')
    ensures Types(ES, codes, 0x28, '\'', '"') && Types(ES, codes, 0x29, '`', '~')
    ensures Types(ES, codes, 0x33, ',', ';') && Types(ES, codes, 0x34, '.', ':') && Types(ES, codes, 0x35, '-', '_')
  {
    hide Types, HasLegend, Table, IsOther, Held, Decode, LetterOf;
    EsGaps(ShiftHeld(codes));
    NothingThere(ES, codes, 0x0D);
    NothingThere(ES, codes, 0x0F);
    forall i | 0 <= i < 11
      ensures Types(ES, codes, 0x02 + i, "1234567890'"[i], "!\"#$%&/()=?"[i])
    {
      OtherPositions(0x02 + i);
      EsDigitLegend(i);
      LegendIs(ES, codes, 0x02 + i, "1234567890'"[i], "!\"#$%&/()=?"[i]);
    }
    EsTopLegends();
    EsHomeLegends();
    EsBottomLegends();
    EndKeysAreOther();
    LegendIs(ES, codes, 0x1A, '[', ']');
    LegendIs(ES, codes, 0x1B, '+', '*');
    LegendIs(ES, codes, 0x27, '\U{A4}', '\U{A5}');
    LegendIs(ES, codes, 0x28, '\'', '"');
    LegendIs(ES, codes, 0x29, '`', '~');
    LegendIs(ES, codes, 0x33, ',', ';');
    LegendIs(ES, codes, 0x34, '.', ':');
    LegendIs(ES, codes, 0x35, '-', '_');
  }

  lemma EsGaps(shift: bool)
    ensures Table(ES, shift, 0x0D) == 0 && Table(ES, shift, 0x0F) == 0
    ensures LetterOf(0x0D) == 0 && LetterOf(0x0F) == 0
  {
  }

  lemma NothingThere(l: Layout, codes: seq<byte>, sc: byte)
    requires sc == LEFT_SHIFT || sc == RIGHT_SHIFT || sc == CAPS_LOCK || sc >= 0x80
          || (LetterOf(sc) == 0 && Table(l, ShiftHeld(codes), sc) == 0)
    ensures Silent(l, codes, sc)
  {
    hide LetterOf, Held, Decode, Table, KeyByte;
    if sc == LEFT_SHIFT || sc == RIGHT_SHIFT || sc == CAPS_LOCK || sc >= 0x80 {
      DecodeAppend(l, codes, sc);
    } else {
      OtherKeys(l, codes, sc);
    }
    assert Decode(l, codes) + [] == Decode(l, codes);
  }

  /** Every other code is silent: releases, modifiers, and keys without a character. */
  lemma OthersAreSilent(l: Layout, codes: seq<byte>, sc: byte)
    requires sc == 0 || sc == 0x1D || sc == 0x2A || 0x36 <= sc <= 0x38 || 0x3A <= sc <= 0x49 || 0x57 <= sc
    ensures Silent(l, codes, sc)
  {
    hide LetterOf, Silent, Held, DigitRow, TopRow, HomeRow, BottomRow, KEYPAD, AsByte;
    LetterPositions(sc);
    NothingThere(l, codes, sc);
  }
}
