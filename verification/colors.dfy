/**
  Turning a chat message into an RGB colour, and packing a colour into the
  24-bit integer a role carries. The message is already lower-cased by the
  caller. Six scan formats are tried in a fixed order, then the letters of the
  message are looked up in a table of colour names.
 */
module Colors {
  import opened Wrappers
  import opened Scan
  import opened Bits

  /** `color.RGBA` without its alpha channel, which no code path reads. */
  datatype Color = Color(r: byte, g: byte, b: byte)

  /** `%d`, `%02x` and `%1x`. */
  const Dec: Directive := Verb(Decimal, HugeWid)
  const Hex2: Directive := Verb(Hexadecimal, 2)
  const Hex1: Directive := Verb(Hexadecimal, 1)

  const DecSpaced: Format := [Dec, Space, Dec, Space, Dec]     // "%d %d %d"
  const DecCommas: Format := [Dec, Lit(','), Dec, Lit(','), Dec] // "%d,%d,%d"
  const HashHex2: Format := [Lit('#'), Hex2, Hex2, Hex2]         // "#%02x%02x%02x"
  const BareHex2: Format := [Hex2, Hex2, Hex2]                   // "%02x%02x%02x"
  const HashHex1: Format := [Lit('#'), Hex1, Hex1, Hex1]         // "#%1x%1x%1x"
  const BareHex1: Format := [Hex1, Hex1, Hex1]                   // "%1x%1x%1x"

  /** The formats in the order they are tried. */
  const Formats: seq<Format> := [DecSpaced, DecCommas, HashHex2, BareHex2, HashHex1, BareHex1]

  /** `Sscanf(s, f, &c.R, &c.G, &c.B)`: a format with other than three verbs is
      an operand-count error. */
  function ScanColor(f: Format, s: string): (r: Option<Color>)
    ensures r.Some? <==> Scanf(f, s).Some? && Fields(f) == 3
    ensures r.Some? ==> Scanf(f, s).value == [r.value.r, r.value.g, r.value.b]
  {
    match Scanf(f, s)
    case None => None
    case Some(vs) => if |vs| == 3 then Some(Color(vs[0], vs[1], vs[2])) else None
  }

  /** The scan loop: the colour of the first format that scans. */
  function FirstScan(fs: seq<Format>, s: string): (r: Option<Color>)
    ensures r.None? <==> forall i :: 0 <= i < |fs| ==> ScanColor(fs[i], s).None?
    ensures r.Some? ==> exists i :: 0 <= i < |fs| && r == ScanColor(fs[i], s)
                                  && forall j :: 0 <= j < i ==> ScanColor(fs[j], s).None?
  {
    if fs == [] then None
    else
      match ScanColor(fs[0], s)
      case Some(c) => Some(c)
      case None =>
        var r := FirstScan(fs[1..], s);
        assert forall i :: 1 <= i < |fs| ==> fs[i] == fs[1..][i - 1];
        if r.Some? then
          var k :| 0 <= k < |fs[1..]| && r == ScanColor(fs[1..][k], s)
                  && forall j :: 0 <= j < k ==> ScanColor(fs[1..][j], s).None?;
          assert forall j :: 0 <= j < k + 1 ==> ScanColor(fs[j], s).None? by {
            forall j | 0 <= j < k + 1 ensures ScanColor(fs[j], s).None? {
              if j > 0 { assert fs[j] == fs[1..][j - 1]; }
            }
          }
          r
        else r
  }

  /** The first format that scans decides the colour. */
  lemma {:induction false} FirstScanPicksFirst(fs: seq<Format>, s: string, i: nat)
    requires i < |fs| && ScanColor(fs[i], s).Some?
    requires forall j :: 0 <= j < i ==> ScanColor(fs[j], s).None?
    ensures FirstScan(fs, s) == ScanColor(fs[i], s)
  {
    if i > 0 {
      assert ScanColor(fs[0], s).None?;
      forall j | 0 <= j < i - 1 ensures ScanColor(fs[1..][j], s).None? {
        assert fs[1..][j] == fs[j + 1];
      }
      FirstScanPicksFirst(fs[1..], s, i - 1);
    }
  }

  /** `parseHexOrRGBToColor`. */
  function ParseHexOrRGBToColor(s: string): (r: Option<Color>)
    ensures s == [] ==> r.None?
  {
    FirstScan(Formats, s)
  }

  // ---------------------------------------------------------------------------
  // Colour names

  predicate IsLetter(c: char) {
    'a' <= c <= 'z'
  }

  /** Deleting every match of `[^a-z]+`: only the letters a-z remain, in order. */
  function StripNonLetters(s: string): (t: string)
    ensures |t| <= |s|
    ensures forall i :: 0 <= i < |t| ==> IsLetter(t[i])
  {
    if s == [] then []
    else (if IsLetter(s[0]) then [s[0]] else []) + StripNonLetters(s[1..])
  }

  /** `parseColornameToColor`, with the external name table as a parameter. */
  function ParseColornameToColor(names: map<string, Color>, s: string): (r: Option<Color>)
    ensures r.Some? <==> StripNonLetters(s) in names
    ensures r.Some? ==> r.value == names[StripNonLetters(s)]
  {
    var key := StripNonLetters(s);
    if key in names then Some(names[key]) else None
  }

  /** `parseMessageToColor`: scan formats in order, then the name table; the
      empty message is never recognised. */
  function ParseMessageToColor(names: map<string, Color>, s: string): (r: Option<Color>)
    ensures s == [] ==> r.None?
    ensures r.Some? <==> s != [] && ((exists i :: 0 <= i < |Formats| && ScanColor(Formats[i], s).Some?)
                                     || StripNonLetters(s) in names)
    ensures forall i :: 0 <= i < |Formats| && s != [] && ScanColor(Formats[i], s).Some?
                        && (forall j :: 0 <= j < i ==> ScanColor(Formats[j], s).None?)
                        ==> r == ScanColor(Formats[i], s)
    ensures s != [] && (forall i :: 0 <= i < |Formats| ==> ScanColor(Formats[i], s).None?)
            ==> r == (if StripNonLetters(s) in names then Some(names[StripNonLetters(s)]) else None)
  {
    if s != [] then
      match ParseHexOrRGBToColor(s)
      case Some(c) =>
        assert forall i :: 0 <= i < |Formats| && ScanColor(Formats[i], s).Some?
                           && (forall j :: 0 <= j < i ==> ScanColor(Formats[j], s).None?)
                           ==> Some(c) == ScanColor(Formats[i], s) by {
          forall i | 0 <= i < |Formats| && ScanColor(Formats[i], s).Some?
                     && (forall j :: 0 <= j < i ==> ScanColor(Formats[j], s).None?)
            ensures Some(c) == ScanColor(Formats[i], s) {
            FirstScanPicksFirst(Formats, s, i);
          }
        }
        Some(c)
      case None => ParseColornameToColor(names, s)
    else None
  }

  // ---------------------------------------------------------------------------
  // Packing

  /** `RGBToRoleColor`: `(R & 0xff) << 16 | (G & 0xff) << 8 | (B & 0xff)`. */
  function RGBToRoleColor(c: Color): (v: int)
    ensures 0 <= v < 0x100_0000
    ensures v == c.r * 0x1_0000 + c.g * 0x100 + c.b
  {
    assert Pow2(8) == 0x100;
    AndLowMask(c.r, 8);
    AndLowMask(c.g, 8);
    AndLowMask(c.b, 8);
    var r, g, b := BitAnd(c.r, 0xff), BitAnd(c.g, 0xff), BitAnd(c.b, 0xff);
    ShlShl(r, 8, 8);
    OrShift(Shl(r, 8), g, 8);
    OrBelowShift(r, g, 8);
    var x := Shl(r, 8) + g;
    OrBelowShift(x, b, 8);
    ShlIsMul(r, 8);
    ShlIsMul(x, 8);
    BitOr(BitOr(Shl(r, 16), Shl(g, 8)), b)
  }

  /** How a 24-bit role colour reads back as three channels. */
  function RoleColorToRGB(v: int): Color
    requires 0 <= v < 0x100_0000
  {
    Color(v / 0x1_0000, (v / 0x100) % 0x100, v % 0x100)
  }

  /** Unpacking a packed colour gives the colour back. */
  lemma UnpackPack(c: Color)
    ensures RoleColorToRGB(RGBToRoleColor(c)) == c
  {
    var v := RGBToRoleColor(c);
    assert v / 0x100 == c.r * 0x100 + c.g;
    assert v / 0x1_0000 == c.r;
  }

  /** Every 24-bit role colour is the packing of exactly one colour. */
  lemma PackUnpack(v: int)
    requires 0 <= v < 0x100_0000
    ensures RGBToRoleColor(RoleColorToRGB(v)) == v
  {
    var q := v / 0x100;
    assert v == q * 0x100 + v % 0x100;
    assert q == (q / 0x100) * 0x100 + q % 0x100;
    assert q / 0x100 == v / 0x1_0000;
  }
}
