/**
  What the colour parser promises its users: each grammar reads back the text
  printed for it, earlier grammars win, the three-digit hex forms give raw
  nibbles, and colour names ignore everything but the letters a-z.
 */
module ColorProperties {
  import opened Wrappers
  import opened Scan
  import opened Colors

  function Channels(c: Color): seq<byte> {
    [c.r, c.g, c.b]
  }

  // ---------------------------------------------------------------------------
  // Runs of steps

  /** Three verbs in a row, each reading one value. */
  lemma Run3(f: Format, s0: string, s1: string, s2: string, s3: string, a: byte, b: byte, c: byte)
    requires |f| == 3
    requires Step(f[0], s0) == Some(([a], s1))
    requires Step(f[1], s1) == Some(([b], s2))
    requires Step(f[2], s2) == Some(([c], s3))
    ensures Scanf(f, s0) == Some([a, b, c])
  {
    var f1, f2 := f[1..], f[2..];
    assert f2[0] == f[2] && f2[1..] == [];
    assert f1[0] == f[1] && f1[1..] == f2;
    assert [c] + [] == [c];
    assert [b] + [c] == [b, c];
    assert [a] + [b, c] == [a, b, c];
    ScanfUnfold(f2, s2, [c], s3, []);
    ScanfUnfold(f1, s1, [b], s2, [c]);
    ScanfUnfold(f, s0, [a], s1, [b, c]);
  }

  lemma ValueDigits(b: Base, x: char, y: char)
    requires IsDigit(b, x) && IsDigit(b, y)
    ensures Value(b, [x]) == DigitValue(x)
    ensures Value(b, [x, y]) == DigitValue(x) * Radix(b) + DigitValue(y)
  {
    assert [x][..0] == [];
    assert [x, y][..1] == [x];
  }

  /** A colour the first `i` formats miss and format `i` scans is the parse. */
  lemma ParsedBy(s: string, i: nat, c: Color)
    requires i < |Formats| && Scanf(Formats[i], s) == Some(Channels(c))
    requires i > 0 ==> ScanColor(DecSpaced, s).None?
    requires i > 1 ==> ScanColor(DecCommas, s).None?
    requires i > 2 ==> ScanColor(HashHex2, s).None?
    requires i > 3 ==> ScanColor(BareHex2, s).None?
    requires i > 4 ==> ScanColor(HashHex1, s).None?
    ensures ParseHexOrRGBToColor(s) == Some(c)
  {
    forall j | 0 <= j < i ensures ScanColor(Formats[j], s).None? {
      if j == 0 { assert Formats[j] == DecSpaced; }
      else if j == 1 { assert Formats[j] == DecCommas; }
      else if j == 2 { assert Formats[j] == HashHex2; }
      else if j == 3 { assert Formats[j] == BareHex2; }
      else { assert Formats[j] == HashHex1; }
    }
    assert ScanColor(Formats[i], s) == Some(c);
    FirstScanPicksFirst(Formats, s, i);
  }

  // ---------------------------------------------------------------------------
  // Single steps of the scanner

  /** `%d` reads back a printed byte that no digit follows. */
  lemma DecStep(v: byte, rest: string)
    requires rest == [] || !IsDigit(Decimal, rest[0])
    ensures Step(Dec, DecString(v) + rest) == Some(([v], rest))
  {
    DecStringOfByte(v);
    ScanPrintVerb(Decimal, HugeWid, v, rest);
  }

  /** `%02x` reads back a printed byte whatever follows it. */
  lemma Hex2Step(v: byte, rest: string)
    ensures Step(Hex2, HexString(v, 2) + rest) == Some(([v], rest))
  {
    assert Pow16(2) == 256;
    ScanPrintVerb(Hexadecimal, 2, v, rest);
  }

  /** A verb reads a run of `n` digits that its width or a non-digit ends. */
  lemma ScanDigits(b: Base, w: nat, s: string, n: nat)
    requires 1 <= n <= w && n <= |s| && AllDigits(b, s[..n])
    requires n < w && n < |s| ==> !IsDigit(b, s[n])
    requires Value(b, s[..n]) <= 255
    ensures ScanVerb(b, w, s) == Some((Value(b, s[..n]), s[n..]))
  {
    assert s[..n][0] == s[0];
    assert IsDigit(Hexadecimal, s[0]);
    assert DropBlanks(s) == s;
    assert SkipSpace(s) == Some(s);
    DigitSpanExact(b, w, s, n);
  }

  /** Text that starts with neither a blank nor a digit defeats both decimal formats. */
  lemma DecimalFormatsNeedDigit(s: string)
    requires s != [] && !IsSpace(s[0]) && !IsDigit(Decimal, s[0])
    ensures ScanColor(DecSpaced, s).None? && ScanColor(DecCommas, s).None?
  {
    assert DropBlanks(s) == s;
    assert Step(Dec, s).None?;
    ScanfRunFails(DecSpaced, [s], [], 0);
    ScanfRunFails(DecCommas, [s], [], 0);
  }

  /** Text that does not start with `#` defeats both `#` formats. */
  lemma HashFormatsNeedHash(s: string)
    requires s == [] || s[0] != '#'
    ensures ScanColor(HashHex2, s).None? && ScanColor(HashHex1, s).None?
  {
    assert Step(Lit('#'), s).None?;
    ScanfRunFails(HashHex2, [s], [], 0);
    ScanfRunFails(HashHex1, [s], [], 0);
  }

  /** Text that starts with neither a blank nor a hex digit defeats both bare hex formats. */
  lemma BareHexFormatsNeedDigit(s: string)
    requires s != [] && !IsSpace(s[0]) && !IsDigit(Hexadecimal, s[0])
    ensures ScanColor(BareHex2, s).None? && ScanColor(BareHex1, s).None?
  {
    assert DropBlanks(s) == s;
    assert Step(Hex2, s).None? && Step(Hex1, s).None?;
    ScanfRunFails(BareHex2, [s], [], 0);
    ScanfRunFails(BareHex1, [s], [], 0);
  }

  /** Text made of hex digits alone has no blank or comma to separate decimals. */
  lemma DecimalFormatsNeedSeparators(s: string)
    requires AllDigits(Hexadecimal, s)
    ensures ScanColor(DecSpaced, s).None? && ScanColor(DecCommas, s).None?
  {
    if s == [] {
      assert Step(Dec, s).None?;
      ScanfRunFails(DecSpaced, [s], [], 0);
      ScanfRunFails(DecCommas, [s], [], 0);
    } else {
      assert DropBlanks(s) == s;
      match ScanVerb(Decimal, HugeWid, s)
      case None =>
        assert Step(Dec, s).None?;
        ScanfRunFails(DecSpaced, [s], [], 0);
        ScanfRunFails(DecCommas, [s], [], 0);
      case Some(vt) =>
        var rest := vt.1;
        assert Step(Dec, s) == Some(([vt.0], rest));
        assert rest == s[|s| - |rest|..];
        assert Step(Lit(','), rest).None? by {
          if rest != [] {
            assert rest[0] == s[|s| - |rest|];
          }
        }
        ScanfRunFails(DecCommas, [s, rest], [[vt.0]], 1);
        if rest != [] {
          assert rest[0] == s[|s| - |rest|];
          assert !IsBlank(rest[0]);
          assert Step(Space, rest).None?;
          ScanfRunFails(DecSpaced, [s, rest], [[vt.0]], 1);
        } else {
          assert Step(Space, rest) == Some(([], rest));
          assert Step(Dec, rest).None?;
          ScanfRunFails(DecSpaced, [s, rest, rest], [[vt.0], []], 2);
        }
    }
  }

  // ---------------------------------------------------------------------------
  // Decimal forms

  /** "r g b" as printed. */
  function SpacedText(c: Color): string {
    DecString(c.r) + " " + DecString(c.g) + " " + DecString(c.b)
  }

  /** "r,g,b" as printed. */
  function CommasText(c: Color): string {
    DecString(c.r) + "," + DecString(c.g) + "," + DecString(c.b)
  }

  /** `%d`, a separator, `%d`, the separator, `%d`. */
  function DecimalFormat(sep: Directive): Format {
    [Dec, sep, Dec, sep, Dec]
  }

  function SepText(sep: Directive): string {
    if sep.Lit? then [sep.c] else " "
  }

  /** The decimal formats scan three values and can read back what they print. */
  lemma DecimalFormatShape(sep: Directive)
    requires sep == Space || sep == Lit(',')
    ensures WellFormed(DecimalFormat(sep)) && Fields(DecimalFormat(sep)) == 3
  {
    var f0 := DecimalFormat(sep);
    var f1, f2, f3, f4: Format := [sep, Dec, sep, Dec], [Dec, sep, Dec], [sep, Dec], [Dec];
    assert f0[1..] == f1 && f1[1..] == f2 && f2[1..] == f3 && f3[1..] == f4 && f4[1..] == [];
    assert Fields(f4) == 1 && Fields(f3) == 1 && Fields(f2) == 2 && Fields(f1) == 2;
    forall i | 0 <= i < |f0| - 1 ensures CanFollow(f0[i], f0[i + 1]) {
      if i % 2 == 0 { assert f0[i] == Dec && f0[i + 1] == sep; }
      else { assert f0[i] == sep && f0[i + 1] == Dec; }
    }
  }

  /** Every channel prints within the width of `%d`. */
  lemma DecimalFormatFits(sep: Directive, c: Color)
    requires sep == Space || sep == Lit(',')
    ensures Fields(DecimalFormat(sep)) == 3 && Fits(DecimalFormat(sep), Channels(c))
  {
    DecimalFormatShape(sep);
    var f0 := DecimalFormat(sep);
    var f1, f2, f3, f4: Format := [sep, Dec, sep, Dec], [Dec, sep, Dec], [sep, Dec], [Dec];
    assert f0[1..] == f1 && f1[1..] == f2 && f2[1..] == f3 && f3[1..] == f4 && f4[1..] == [];
    var v0 := Channels(c);
    var v1, v2: seq<byte> := [c.g, c.b], [c.b];
    assert v0[1..] == v1 && v1[1..] == v2 && v2[1..] == [];
    DecStringOfByte(c.r);
    DecStringOfByte(c.g);
    DecStringOfByte(c.b);
    assert Fits(f4, v2);
    assert Fits(f3, v2);
    assert Fits(f2, v1);
    assert Fits(f1, v1);
  }

  /** What the last three directives of a decimal format print. */
  lemma DecimalTailPrint(sep: Directive, g: byte, b: byte)
    requires sep == Space || sep == Lit(',')
    ensures Fields([sep, Dec, sep, Dec]) == 2
    ensures Print([sep, Dec, sep, Dec], [g, b]) == SepText(sep) + (DecString(g) + (SepText(sep) + DecString(b)))
  {
    var f1, f2, f3, f4: Format := [sep, Dec, sep, Dec], [Dec, sep, Dec], [sep, Dec], [Dec];
    assert f1[1..] == f2 && f2[1..] == f3 && f3[1..] == f4 && f4[1..] == [];
    var v1, v2: seq<byte> := [g, b], [b];
    assert v1[1..] == v2 && v2[1..] == [];
    var t := SepText(sep);
    assert Print(f4, v2) == DecString(b);
    assert Print(f3, v2) == t + DecString(b);
    assert Print(f2, v1) == DecString(g) + (t + DecString(b));
  }

  /** What a decimal format prints for a colour. */
  lemma DecimalFormatPrint(sep: Directive, c: Color)
    requires sep == Space || sep == Lit(',')
    ensures Fields(DecimalFormat(sep)) == 3
    ensures Print(DecimalFormat(sep), Channels(c))
            == DecString(c.r) + SepText(sep) + DecString(c.g) + SepText(sep) + DecString(c.b)
  {
    DecimalFormatShape(sep);
    DecimalTailPrint(sep, c.g, c.b);
    var f0 := DecimalFormat(sep);
    var v0 := Channels(c);
    assert f0[1..] == [sep, Dec, sep, Dec];
    assert v0[1..] == [c.g, c.b];
  }

  lemma SpacedScans(c: Color, tail: string)
    requires tail == [] || !IsDigit(Decimal, tail[0])
    ensures Scanf(DecSpaced, SpacedText(c) + tail) == Some(Channels(c))
  {
    DecimalFormatShape(Space);
    DecimalFormatFits(Space, c);
    DecimalFormatPrint(Space, c);
    assert DecimalFormat(Space) == DecSpaced;
    ScanPrintRoundTrip(DecSpaced, Channels(c), tail);
  }

  lemma CommasScans(c: Color, tail: string)
    requires tail == [] || !IsDigit(Decimal, tail[0])
    ensures Scanf(DecCommas, CommasText(c) + tail) == Some(Channels(c))
  {
    DecimalFormatShape(Lit(','));
    DecimalFormatFits(Lit(','), c);
    DecimalFormatPrint(Lit(','), c);
    assert DecimalFormat(Lit(',')) == DecCommas;
    ScanPrintRoundTrip(DecCommas, Channels(c), tail);
  }

  /** The blank-separated format stops at the first comma. */
  lemma CommasDefeatSpaced(c: Color, tail: string)
    ensures ScanColor(DecSpaced, CommasText(c) + tail).None?
  {
    var x2 := "," + DecString(c.g) + "," + DecString(c.b) + tail;
    var x1 := DecString(c.r) + x2;
    assert x1 == CommasText(c) + tail;
    DecStep(c.r, x2);
    assert Step(Space, x2).None?;
    ScanfRunFails(DecSpaced, [x1, x2], [[c.r]], 1);
  }

  /** "r g b" in decimal, followed by anything but a digit, parses to (r, g, b):
      the first format wins and the rest of the message is not read. */
  lemma DecimalSpacedRoundTrip(c: Color, tail: string)
    requires tail == [] || !IsDigit(Decimal, tail[0])
    ensures ParseHexOrRGBToColor(SpacedText(c) + tail) == Some(c)
  {
    SpacedScans(c, tail);
    ParsedBy(SpacedText(c) + tail, 0, c);
  }

  /** "r,g,b" in decimal, followed by anything but a digit, parses to (r, g, b). */
  lemma DecimalCommasRoundTrip(c: Color, tail: string)
    requires tail == [] || !IsDigit(Decimal, tail[0])
    ensures ParseHexOrRGBToColor(CommasText(c) + tail) == Some(c)
  {
    CommasScans(c, tail);
    CommasDefeatSpaced(c, tail);
    ParsedBy(CommasText(c) + tail, 1, c);
  }

  // ---------------------------------------------------------------------------
  // Six-digit hex forms

  /** `%02x` three times. */
  function Hex6(c: Color): string {
    HexString(c.r, 2) + HexString(c.g, 2) + HexString(c.b, 2)
  }

  /** The `#` formats are the bare ones behind a literal `#`. */
  lemma HashFormats()
    ensures HashHex2 == [Lit('#')] + BareHex2
    ensures HashHex1 == [Lit('#')] + BareHex1
  {
  }

  /** A `#` format reads `"#" + s` as its bare format reads `s`. */
  lemma HashPrefix(s: string)
    ensures Scanf(HashHex2, "#" + s) == Scanf(BareHex2, s)
    ensures Scanf(HashHex1, "#" + s) == Scanf(BareHex1, s)
  {
    HashFormats();
    ScanLitPrefix('#', BareHex2, s);
    ScanLitPrefix('#', BareHex1, s);
  }

  /** The three `%02x` verbs read back `Hex6(c)` whatever follows it. */
  lemma Hex6Scans(c: Color, tail: string)
    ensures Scanf(BareHex2, Hex6(c) + tail) == Some(Channels(c))
  {
    var x3 := HexString(c.b, 2) + tail;
    var x2 := HexString(c.g, 2) + x3;
    var x1 := HexString(c.r, 2) + x2;
    assert x1 == Hex6(c) + tail;
    Hex2Step(c.r, x2);
    Hex2Step(c.g, x3);
    Hex2Step(c.b, tail);
    Run3(BareHex2, x1, x2, x3, tail, c.r, c.g, c.b);
  }

  /** `Hex6(c)` is made of hex digits. */
  lemma Hex6Digits(c: Color)
    ensures AllDigits(Hexadecimal, Hex6(c))
  {
    HexStringValue(c.r, 2);
    HexStringValue(c.g, 2);
    HexStringValue(c.b, 2);
    var x, y, z := HexString(c.r, 2), HexString(c.g, 2), HexString(c.b, 2);
    forall i | 0 <= i < 6 ensures IsDigit(Hexadecimal, Hex6(c)[i]) {
      if i < 2 { assert Hex6(c)[i] == x[i]; }
      else if i < 4 { assert Hex6(c)[i] == y[i - 2]; }
      else { assert Hex6(c)[i] == z[i - 4]; }
    }
  }

  /** "#rrggbb" parses to (rr, gg, bb) whatever follows it. */
  lemma HashHexRoundTrip(c: Color, tail: string)
    ensures ParseHexOrRGBToColor("#" + Hex6(c) + tail) == Some(c)
  {
    var s := "#" + Hex6(c) + tail;
    assert s == "#" + (Hex6(c) + tail);
    DecimalFormatsNeedDigit(s);
    Hex6Scans(c, tail);
    HashPrefix(Hex6(c) + tail);
    ParsedBy(s, 2, c);
  }

  /** "rrggbb" parses to (rr, gg, bb). */
  lemma BareHexRoundTrip(c: Color)
    ensures ParseHexOrRGBToColor(Hex6(c)) == Some(c)
  {
    var s := Hex6(c);
    assert s + [] == s;
    Hex6Scans(c, []);
    Hex6Digits(c);
    DecimalFormatsNeedSeparators(s);
    HashFormatsNeedHash(s);
    ParsedBy(s, 3, c);
  }

  // ---------------------------------------------------------------------------
  // Three-digit hex forms: each digit is the channel's value, 0 to 15

  /** A single hex digit read by a verb of width one or two, when no hex digit
      follows within the width. */
  lemma OneDigit(w: nat, s: string)
    requires 1 <= w <= 2 && s != [] && IsDigit(Hexadecimal, s[0])
    requires w == 2 && |s| > 1 ==> !IsDigit(Hexadecimal, s[1])
    ensures Step(Verb(Hexadecimal, w), s) == Some(([DigitValue(s[0])], s[1..]))
  {
    assert s[..1] == [s[0]];
    ValueDigits(Hexadecimal, s[0], s[0]);
    ScanDigits(Hexadecimal, w, s, 1);
  }

  /** Three hex digits read by `%02x` twice leave nothing for the third verb,
      with or without a `#` in front. */
  lemma ThreeDigitsDefeatHex2(h: string)
    requires |h| == 3 && AllDigits(Hexadecimal, h)
    ensures ScanColor(BareHex2, h).None?
    ensures ScanColor(HashHex2, "#" + h).None?
  {
    assert Pow16(2) == 256;
    var t := h[2..];
    assert h[..2] == [h[0], h[1]];
    ValueDigits(Hexadecimal, h[0], h[1]);
    ScanDigits(Hexadecimal, 2, h, 2);
    OneDigit(2, t);
    assert t[1..] == [];
    assert Step(Hex2, []).None?;
    var outs: seq<seq<byte>> := [[Value(Hexadecimal, h[..2])], [DigitValue(t[0])]];
    ScanfRunFails(BareHex2, [h, t, []], outs, 2);
    HashPrefix(h);
  }

  /** The colour three hex digits name by their raw values. */
  function Nibbles(h: string): Color
    requires |h| == 3 && AllDigits(Hexadecimal, h)
  {
    Color(DigitValue(h[0]), DigitValue(h[1]), DigitValue(h[2]))
  }

  /** Three hex digits read by `%1x` three times give the three digit values. */
  lemma ThreeDigitsByHex1(h: string)
    requires |h| == 3 && AllDigits(Hexadecimal, h)
    ensures Scanf(BareHex1, h) == Some(Channels(Nibbles(h)))
  {
    var x, y, z := h[0], h[1], h[2];
    assert h == [x, y, z];
    assert [x, y, z][1..] == [y, z] && [y, z][1..] == [z] && [z][1..] == [];
    OneDigit(1, [x, y, z]);
    OneDigit(1, [y, z]);
    OneDigit(1, [z]);
    Run3(BareHex1, [x, y, z], [y, z], [z], [], DigitValue(x), DigitValue(y), DigitValue(z));
  }

  /** "#rgb" gives the raw digit values (10, 11, 12 for "#abc"), not the doubled
      digits of the CSS shorthand. */
  lemma HashNibbles(h: string)
    requires |h| == 3 && AllDigits(Hexadecimal, h)
    ensures ParseHexOrRGBToColor("#" + h) == Some(Nibbles(h))
  {
    var s := "#" + h;
    DecimalFormatsNeedDigit(s);
    ThreeDigitsDefeatHex2(h);
    BareHexFormatsNeedDigit(s);
    ThreeDigitsByHex1(h);
    HashPrefix(h);
    ParsedBy(s, 4, Nibbles(h));
  }

  /** "rgb" gives the raw digit values too. */
  lemma BareNibbles(h: string)
    requires |h| == 3 && AllDigits(Hexadecimal, h)
    ensures ParseHexOrRGBToColor(h) == Some(Nibbles(h))
  {
    DecimalFormatsNeedSeparators(h);
    HashFormatsNeedHash(h);
    ThreeDigitsDefeatHex2(h);
    ThreeDigitsByHex1(h);
    ParsedBy(h, 5, Nibbles(h));
  }

  /** The messages "#1a2b3c" and "1a2b3c" both give (26, 43, 60). */
  lemma SixDigitExample(c: Color)
    requires c == Color(26, 43, 60)
    ensures Hex6(c) == "1a2b3c"
    ensures ParseHexOrRGBToColor("#" + Hex6(c)) == Some(c)
    ensures ParseHexOrRGBToColor(Hex6(c)) == Some(c)
  {
    assert HexString(c.r, 2) == "1a" && HexString(c.g, 2) == "2b" && HexString(c.b, 2) == "3c";
    assert "1a" + "2b" + "3c" == "1a2b3c";
    HashHexRoundTrip(c, []);
    assert "#" + Hex6(c) + [] == "#" + Hex6(c);
    BareHexRoundTrip(c);
  }

  /** The messages "#abc" and "abc" both give (10, 11, 12). */
  lemma ThreeDigitExample(h: string)
    requires h == "abc"
    ensures ParseHexOrRGBToColor("#" + h) == Some(Color(10, 11, 12))
    ensures ParseHexOrRGBToColor(h) == Some(Color(10, 11, 12))
  {
    assert DigitValue(h[0]) == 10 && DigitValue(h[1]) == 11 && DigitValue(h[2]) == 12;
    assert Nibbles(h) == Color(10, 11, 12);
    HashNibbles(h);
    BareNibbles(h);
  }

  // ---------------------------------------------------------------------------
  // Out-of-range decimals

  /** `%d` rejects a decimal over 255 instead of truncating it: "256 0 0"
      fails both decimal formats. */
  lemma OverflowRejected(s: string)
    requires s == "256 0 0"
    ensures ScanColor(DecSpaced, s).None? && ScanColor(DecCommas, s).None?
  {
    assert DropBlanks(s) == s;
    assert s[..3] == ['2', '5', '6'] && AllDigits(Decimal, s[..3]) && !IsDigit(Decimal, s[3]);
    DigitSpanExact(Decimal, HugeWid, s, 3);
    ValueDigits(Decimal, '2', '5');
    assert ['2', '5', '6'][..2] == ['2', '5'];
    assert Value(Decimal, s[..3]) == 256;
    assert Step(Dec, s).None?;
    ScanfRunFails(DecSpaced, [s], [], 0);
    ScanfRunFails(DecCommas, [s], [], 0);
  }

  /** `%02x%02x%02x` reads "256 0 0" as "25", "6" and, after the blank, "0". */
  lemma OverflowAsHex(s: string)
    requires s == "256 0 0"
    ensures Scanf(BareHex2, s) == Some([37, 6, 0])
  {
    var s1, s2, s3 := s[2..], s[3..], s[5..];
    assert s[..2] == ['2', '5'];
    ValueDigits(Hexadecimal, '2', '5');
    ScanDigits(Hexadecimal, 2, s, 2);
    assert s1[..1] == ['6'] && s1[1..] == s2;
    ValueDigits(Hexadecimal, '6', '6');
    ScanDigits(Hexadecimal, 2, s1, 1);
    BlankThenDigit(s2);
    Run3(BareHex2, s, s1, s2, s3, 37, 6, 0);
  }

  lemma BlankThenDigit(s: string)
    requires s == " 0 0"
    ensures Step(Hex2, s) == Some(([0], s[2..]))
  {
    var t := s[1..];
    assert DropBlanks(s) == t by {
      assert s[0] == ' ' && t[0] == '0';
    }
    assert t[..1] == ['0'] && t[1..] == s[2..];
    ValueDigits(Hexadecimal, '0', '0');
    ScanDigits(Hexadecimal, 2, t, 1);
  }

  /** Hence "256 0 0" parses to (37, 6, 0), not to a truncated (0, 0, 0). */
  lemma OverflowFallsToHex(s: string)
    requires s == "256 0 0"
    ensures ParseHexOrRGBToColor(s) == Some(Color(37, 6, 0))
  {
    OverflowRejected(s);
    HashFormatsNeedHash(s);
    OverflowAsHex(s);
    ParsedBy(s, 3, Color(37, 6, 0));
  }

  // ---------------------------------------------------------------------------
  // Colour names

  /** Stripping distributes over concatenation. */
  lemma {:induction false} StripConcat(a: string, b: string)
    ensures StripNonLetters(a + b) == StripNonLetters(a) + StripNonLetters(b)
  {
    if a != [] {
      assert (a + b)[0] == a[0];
      assert (a + b)[1..] == a[1..] + b;
      StripConcat(a[1..], b);
    } else {
      assert a + b == b;
    }
  }

  /** A string is its own stripping exactly when it is made of letters a-z. */
  lemma {:induction false} StripKeepsOnlyLetters(s: string)
    ensures StripNonLetters(s) == s <==> forall i :: 0 <= i < |s| ==> IsLetter(s[i])
  {
    if s != [] {
      StripKeepsOnlyLetters(s[1..]);
      if !IsLetter(s[0]) {
        assert |StripNonLetters(s)| <= |s[1..]| < |s|;
      } else {
        assert forall i :: 1 <= i < |s| ==> s[i] == s[1..][i - 1];
        if StripNonLetters(s[1..]) == s[1..] {
          assert [s[0]] + s[1..] == s;
        }
        if StripNonLetters(s) == s {
          assert StripNonLetters(s[1..]) == s[1..];
        }
      }
    }
  }

  /** Stripping is idempotent. */
  lemma StripIdempotent(s: string)
    ensures StripNonLetters(StripNonLetters(s)) == StripNonLetters(s)
  {
    StripKeepsOnlyLetters(StripNonLetters(s));
  }

  /** Inserting a character other than a-z anywhere does not change the name
      looked up, so messages that differ only in such characters name the same
      colour. */
  lemma NonLetterIgnored(names: map<string, Color>, a: string, x: char, b: string)
    requires !IsLetter(x)
    ensures StripNonLetters(a + [x] + b) == StripNonLetters(a + b)
    ensures ParseColornameToColor(names, a + [x] + b) == ParseColornameToColor(names, a + b)
  {
    StripConcat(a + [x], b);
    StripConcat(a, [x]);
    StripConcat(a, b);
    assert StripNonLetters([x]) == [];
  }

  /** Text without a letter a-z strips to nothing. */
  lemma {:induction false} StripNoLetters(x: string)
    requires forall i :: 0 <= i < |x| ==> !IsLetter(x[i])
    ensures StripNonLetters(x) == []
  {
    if x != [] {
      assert forall i :: 0 <= i < |x| - 1 ==> x[1..][i] == x[i + 1];
      StripNoLetters(x[1..]);
    }
  }

  /** A run of letters a-z is kept whole, anything else is dropped. */
  lemma StripPieces(a: string, x: string, b: string)
    requires forall i :: 0 <= i < |a| ==> IsLetter(a[i])
    requires forall i :: 0 <= i < |x| ==> !IsLetter(x[i])
    ensures StripNonLetters(a + x + b) == a + StripNonLetters(b)
  {
    StripKeepsOnlyLetters(a);
    StripNoLetters(x);
    StripConcat(a + x, b);
    StripConcat(a, x);
    assert a + [] == a;
  }

  /** "corn-flower_blue123" names the same colour as "cornflowerblue". */
  lemma NameExample(names: map<string, Color>, s: string, w1: string, w2: string, w3: string)
    requires w1 == "corn" && w2 == "flower" && w3 == "blue"
    requires s == w1 + "-" + w2 + "_" + w3 + "123"
    ensures StripNonLetters(s) == w1 + w2 + w3
    ensures ParseColornameToColor(names, s)
            == if w1 + w2 + w3 in names then Some(names[w1 + w2 + w3]) else None
  {
    var d1, d2, d3: string := "-", "_", "123";
    assert forall i :: 0 <= i < |w1| ==> IsLetter(w1[i]);
    assert forall i :: 0 <= i < |w2| ==> IsLetter(w2[i]);
    assert forall i :: 0 <= i < |w3| ==> IsLetter(w3[i]);
    assert forall i :: 0 <= i < |d1| ==> !IsLetter(d1[i]);
    assert forall i :: 0 <= i < |d2| ==> !IsLetter(d2[i]);
    assert forall i :: 0 <= i < |d3| ==> !IsLetter(d3[i]);
    var t3 := w3 + d3 + [];
    var t2 := w2 + d2 + t3;
    assert s == w1 + d1 + t2;
    StripPieces(w3, d3, []);
    StripPieces(w2, d2, t3);
    StripPieces(w1, d1, t2);
    assert w3 + [] == w3;
    assert w1 + (w2 + w3) == w1 + w2 + w3;
  }

  // ---------------------------------------------------------------------------
  // The whole parser

  /** A message that starts with a letter past `f` fits no scan format, so the
      name table alone decides it. */
  lemma NamesDecideLetterMessages(names: map<string, Color>, s: string)
    requires s != [] && IsLetter(s[0]) && !IsDigit(Hexadecimal, s[0])
    ensures ParseMessageToColor(names, s) == ParseColornameToColor(names, s)
  {
    DecimalFormatsNeedDigit(s);
    HashFormatsNeedHash(s);
    BareHexFormatsNeedDigit(s);
    forall i | 0 <= i < |Formats| ensures ScanColor(Formats[i], s).None? {
      if i == 0 { assert Formats[i] == DecSpaced; }
      else if i == 1 { assert Formats[i] == DecCommas; }
      else if i == 2 { assert Formats[i] == HashHex2; }
      else if i == 3 { assert Formats[i] == BareHex2; }
      else if i == 4 { assert Formats[i] == HashHex1; }
      else { assert Formats[i] == BareHex1; }
    }
  }

  /** Scan formats come before names: three hex digits give their raw digit
      values even when the name table has an entry for those letters. */
  lemma FormatsBeforeNames(names: map<string, Color>, h: string)
    requires |h| == 3 && AllDigits(Hexadecimal, h)
    ensures ParseMessageToColor(names, h) == Some(Nibbles(h))
    ensures ParseMessageToColor(names, "#" + h) == Some(Nibbles(h))
  {
    BareNibbles(h);
    HashNibbles(h);
  }

  /** A hex verb fails where the input ends or a character that is neither a
      blank nor a hex digit comes first. */
  lemma HexVerbStops(w: nat, t: string)
    requires t == [] || (!IsBlank(t[0]) && !IsDigit(Hexadecimal, t[0]))
    ensures Step(Verb(Hexadecimal, w), t).None?
  {
  }

  /** `%02x` reads two hex digits as one byte. */
  lemma TwoHexDigits(s: string)
    requires |s| >= 2 && IsDigit(Hexadecimal, s[0]) && IsDigit(Hexadecimal, s[1])
    ensures Step(Hex2, s) == Some(([DigitValue(s[0]) * 16 + DigitValue(s[1])], s[2..]))
  {
    assert s[..2] == [s[0], s[1]];
    ValueDigits(Hexadecimal, s[0], s[1]);
    ScanDigits(Hexadecimal, 2, s, 2);
  }

  /** A scan whose second directive fails fails. */
  lemma FailsAtSecond(f: Format, s: string, out: seq<byte>, t: string)
    requires |f| >= 2 && Step(f[0], s) == Some((out, t)) && Step(f[1], t).None?
    ensures Scanf(f, s).None?
  {
    assert f[1..][0] == f[1];
  }

  /** A scan whose third directive fails fails. */
  lemma FailsAtThird(f: Format, s: string, out: seq<byte>, t: string, out': seq<byte>, u: string)
    requires |f| >= 3 && Step(f[0], s) == Some((out, t)) && Step(f[1], t) == Some((out', u))
    requires Step(f[2], u).None?
    ensures Scanf(f, s).None?
  {
    FailsAtSecond(f[1..], t, out', u);
  }

  /** `%02x%02x%02x` fails when one or two hex digits are followed by the end or
      by a character that is neither a blank nor a hex digit. */
  lemma ShortHexRunMissesHex2(s: string, k: nat)
    requires 1 <= k <= 2 && k <= |s| && AllDigits(Hexadecimal, s[..k])
    requires k < |s| ==> !IsBlank(s[k]) && !IsDigit(Hexadecimal, s[k])
    ensures Scanf(BareHex2, s).None?
  {
    var t := s[k..];
    HexVerbStops(2, t);
    assert IsDigit(Hexadecimal, s[..k][0]);
    if k == 1 {
      OneDigit(2, s);
      FailsAtSecond(BareHex2, s, [DigitValue(s[0])], t);
    } else {
      assert IsDigit(Hexadecimal, s[..k][1]);
      TwoHexDigits(s);
      FailsAtSecond(BareHex2, s, [DigitValue(s[0]) * 16 + DigitValue(s[1])], t);
    }
  }

  /** `%1x%1x%1x` fails on the same messages. */
  lemma ShortHexRunMissesHex1(s: string, k: nat)
    requires 1 <= k <= 2 && k <= |s| && AllDigits(Hexadecimal, s[..k])
    requires k < |s| ==> !IsBlank(s[k]) && !IsDigit(Hexadecimal, s[k])
    ensures Scanf(BareHex1, s).None?
  {
    var t := s[k..];
    HexVerbStops(1, t);
    assert IsDigit(Hexadecimal, s[..k][0]);
    OneDigit(1, s);
    if k == 1 {
      FailsAtSecond(BareHex1, s, [DigitValue(s[0])], t);
    } else {
      assert IsDigit(Hexadecimal, s[..k][1]);
      OneDigit(1, s[1..]);
      assert s[1..][1..] == t;
      FailsAtThird(BareHex1, s, [DigitValue(s[0])], s[1..], [DigitValue(s[1])], t);
    }
  }

  /** Every scan format fails on a message whose one or two leading hex
      characters start with a letter a-f and are followed by a letter g-z or by
      the end of the message. */
  lemma ShortHexRunFails(s: string, k: nat)
    requires 1 <= k <= 2 && k <= |s| && IsLetter(s[0]) && AllDigits(Hexadecimal, s[..k])
    requires k < |s| ==> IsLetter(s[k]) && !IsDigit(Hexadecimal, s[k])
    ensures forall i :: 0 <= i < |Formats| ==> ScanColor(Formats[i], s).None?
  {
    ShortHexRunMissesHex2(s, k);
    ShortHexRunMissesHex1(s, k);
    DecimalFormatsNeedDigit(s);
    HashFormatsNeedHash(s);
    forall i | 0 <= i < |Formats| ensures ScanColor(Formats[i], s).None? {
      if i == 0 { assert Formats[i] == DecSpaced; }
      else if i == 1 { assert Formats[i] == DecCommas; }
      else if i == 2 { assert Formats[i] == HashHex2; }
      else if i == 3 { assert Formats[i] == BareHex2; }
      else if i == 4 { assert Formats[i] == HashHex1; }
      else { assert Formats[i] == BareHex1; }
    }
  }

  /** A message whose leading run of hex digits is one or two letters long,
      ended by a non-hex letter or the end, is decided by the name table. */
  lemma ShortHexRunGoesToNames(names: map<string, Color>, s: string, k: nat)
    requires 1 <= k <= 2 && k <= |s| && IsLetter(s[0]) && AllDigits(Hexadecimal, s[..k])
    requires k < |s| ==> IsLetter(s[k]) && !IsDigit(Hexadecimal, s[k])
    ensures ParseMessageToColor(names, s) == ParseColornameToColor(names, s)
  {
    ShortHexRunFails(s, k);
  }

  /** `%1x%1x%1x` reads the first three characters when they are hex digits,
      whatever follows. */
  lemma HexPrefixByHex1(s: string)
    requires |s| >= 3 && AllDigits(Hexadecimal, s[..3])
    ensures Scanf(BareHex1, s) == Some([DigitValue(s[0]), DigitValue(s[1]), DigitValue(s[2])])
  {
    assert IsDigit(Hexadecimal, s[..3][0]) && IsDigit(Hexadecimal, s[..3][1]) && IsDigit(Hexadecimal, s[..3][2]);
    var s1, s2 := s[1..], s[2..];
    assert s1[1..] == s2;
    OneDigit(1, s);
    OneDigit(1, s1);
    OneDigit(1, s2);
    Run3(BareHex1, s, s1, s2, s2[1..], DigitValue(s[0]), DigitValue(s[1]), DigitValue(s[2]));
  }

  /** Three leading hex digits always make a colour through `%1x%1x%1x` (or an
      earlier format), so the name table is never consulted. */
  lemma HexPrefixShadowsNames(names: map<string, Color>, s: string)
    requires |s| >= 3 && AllDigits(Hexadecimal, s[..3])
    ensures ParseHexOrRGBToColor(s).Some?
    ensures ParseMessageToColor(names, s) == ParseHexOrRGBToColor(s)
  {
    HexPrefixByHex1(s);
    assert Formats[5] == BareHex1;
  }

  /** "cadetblue" defeats `%02x%02x%02x`: it reads "ca" and "de" and stops at "t". */
  lemma CadetBlueMissesHex2(s: string)
    requires s == "cadetblue"
    ensures ScanColor(BareHex2, s).None?
  {
    var s2, s4 := s[2..], s[4..];
    assert s2[0] == 'd' && s2[1] == 'e' && s2[2..] == s4 && s4[0] == 't';
    TwoHexDigits(s);
    TwoHexDigits(s2);
    HexVerbStops(2, s4);
    FailsAtThird(BareHex2, s, [0xca], s2, [0xde], s4);
  }

  /** So the message "cadetblue" is the colour (12, 10, 13) that `%1x%1x%1x`
      reads from "cad", whatever the name table holds. */
  lemma CadetBlueShadowed(names: map<string, Color>, s: string)
    requires s == "cadetblue"
    ensures ParseMessageToColor(names, s) == Some(Color(12, 10, 13))
  {
    DecimalFormatsNeedDigit(s);
    HashFormatsNeedHash(s);
    CadetBlueMissesHex2(s);
    assert s[..3] == "cad";
    HexPrefixByHex1(s);
    assert Channels(Color(12, 10, 13)) == [12, 10, 13];
    ParsedBy(s, 5, Color(12, 10, 13));
    HexPrefixShadowsNames(names, s);
  }

  /** A hex verb skips the blank in front of a digit and reads that digit
      alone when a non-hex character follows it. */
  lemma BlankThenOneDigit(w: nat, s: string)
    requires 1 <= w <= 2 && |s| >= 3 && s[0] == ' ' && IsDigit(Hexadecimal, s[1])
    requires !IsBlank(s[2]) && !IsDigit(Hexadecimal, s[2])
    ensures Step(Verb(Hexadecimal, w), s) == Some(([DigitValue(s[1])], s[2..]))
  {
    var t := s[1..];
    assert DropBlanks(s) == t by {
      assert IsBlank(s[0]) && t[0] == s[1];
    }
    assert t[1] == s[2] && t[1..] == s[2..];
    OneDigit(w, t);
  }

  /** "ca dog" defeats `%02x%02x%02x`: it reads "ca", skips the blank, reads
      "d" and stops at "o". */
  lemma CaDogMissesHex2(s: string)
    requires s == "ca dog"
    ensures ScanColor(BareHex2, s).None?
  {
    var s2, t := s[2..], s[4..];
    assert s2[0] == ' ' && s2[1] == 'd' && s2[2] == 'o' && s2[2..] == t && t[0] == 'o';
    TwoHexDigits(s);
    BlankThenOneDigit(2, s2);
    HexVerbStops(2, t);
    FailsAtThird(BareHex2, s, [0xca], s2, [13], t);
  }

  /** Because `%1x` skips blanks, the message "ca dog" is read as "c", "a",
      "d", the colour (12, 10, 13), whatever the name table holds. */
  lemma BlankLetsHex1Continue(names: map<string, Color>, s: string)
    requires s == "ca dog"
    ensures ParseMessageToColor(names, s) == Some(Color(12, 10, 13))
  {
    DecimalFormatsNeedDigit(s);
    HashFormatsNeedHash(s);
    CaDogMissesHex2(s);
    var s1, s2, t := s[1..], s[2..], s[4..];
    assert s1[0] == 'a' && s1[1] == ' ' && s1[1..] == s2;
    assert s2[0] == ' ' && s2[1] == 'd' && s2[2] == 'o' && s2[2..] == t;
    OneDigit(1, s);
    OneDigit(1, s1);
    BlankThenOneDigit(1, s2);
    Run3(BareHex1, s, s1, s2, t, 12, 10, 13);
    assert Channels(Color(12, 10, 13)) == [12, 10, 13];
    ParsedBy(s, 5, Color(12, 10, 13));
  }

  /** A message whose first character is neither white space, a hex digit nor
      `#` fits no scan format, so the name table alone decides it. */
  lemma NoFormatStartGoesToNames(names: map<string, Color>, s: string)
    requires s != [] && !IsSpace(s[0]) && !IsDigit(Hexadecimal, s[0]) && s[0] != '#'
    ensures ParseMessageToColor(names, s) == ParseColornameToColor(names, s)
  {
    DecimalFormatsNeedDigit(s);
    HashFormatsNeedHash(s);
    BareHexFormatsNeedDigit(s);
    forall i | 0 <= i < |Formats| ensures ScanColor(Formats[i], s).None? {
      if i == 0 { assert Formats[i] == DecSpaced; }
      else if i == 1 { assert Formats[i] == DecCommas; }
      else if i == 2 { assert Formats[i] == HashHex2; }
      else if i == 3 { assert Formats[i] == BareHex2; }
      else if i == 4 { assert Formats[i] == HashHex1; }
      else { assert Formats[i] == BareHex1; }
    }
  }

  /** Shadowing depends on the first characters, not on the letters: "-cadetblue"
      fits no format and is looked up as "cadetblue". */
  lemma DashCadetBlueReachesNames(names: map<string, Color>, s: string, w: string)
    requires w == "cadetblue" && s == "-" + w
    ensures StripNonLetters(s) == w
    ensures ParseMessageToColor(names, s) == ParseColornameToColor(names, s)
    ensures ParseMessageToColor(names, s) == if w in names then Some(names[w]) else None
  {
    var dash: string := "-";
    assert forall i :: 0 <= i < |dash| ==> !IsLetter(dash[i]);
    assert forall i :: 0 <= i < |w| ==> IsLetter(w[i]);
    StripKeepsOnlyLetters(w);
    StripPieces([], dash, w);
    assert [] + dash + w == s;
    NoFormatStartGoesToNames(names, s);
  }

  /** "corn-flower_blue123" reaches the name table: `%02x` and `%1x` read the
      "c" and stop at the "o". */
  lemma NameExampleMessage(names: map<string, Color>, s: string, w1: string, w2: string, w3: string)
    requires w1 == "corn" && w2 == "flower" && w3 == "blue"
    requires s == w1 + "-" + w2 + "_" + w3 + "123"
    ensures ParseMessageToColor(names, s) == ParseColornameToColor(names, s)
  {
    assert s[0] == 'c' && s[1] == 'o';
    assert s[..1] == ['c'];
    ShortHexRunGoesToNames(names, s, 1);
  }

  /** A message no format scans and whose letters name no colour is not
      recognised. */
  lemma NotRecognized(names: map<string, Color>, s: string, w1: string, w2: string, w3: string)
    requires w1 == "not" && w2 == "a" && w3 == "color"
    requires s == w1 + " " + w2 + " " + w3
    requires w1 + w2 + w3 !in names
    ensures ParseMessageToColor(names, s) == None
  {
    var sp: string := " ";
    assert forall i :: 0 <= i < |w1| ==> IsLetter(w1[i]);
    assert forall i :: 0 <= i < |w2| ==> IsLetter(w2[i]);
    assert forall i :: 0 <= i < |w3| ==> IsLetter(w3[i]);
    assert forall i :: 0 <= i < |sp| ==> !IsLetter(sp[i]);
    var t3 := w3 + [] + [];
    var t2 := w2 + sp + t3;
    assert s == w1 + sp + t2;
    assert s[0] == 'n';
    NamesDecideLetterMessages(names, s);
    StripPieces(w3, [], []);
    StripPieces(w2, sp, t3);
    StripPieces(w1, sp, t2);
    assert w3 + [] == w3;
    assert w1 + (w2 + w3) == w1 + w2 + w3;
  }
}
