/**
  The part of Go's `fmt.Sscanf` that the colour parser relies on: formats made of
  literal characters, blanks and the integer verbs `%d` and `%Nx`, scanned into
  `uint8` operands. A format is a sequence of directives; scanning consumes the
  input left to right and never looks at what follows the last directive.

  `Print` writes values back as text, printing decimal verbs without width
  padding. It is a right inverse of `Scanf` for well-formed formats whose values
  fit their widths, which is what `ScanPrintRoundTrip` proves.
 */
module Scan {
  import opened Wrappers

  /** The range of a Go `uint8`. */
  type byte = x: int | 0 <= x < 256

  /** The width Go's scanner uses for a verb written without one. */
  const HugeWid: nat := 0x4000_0000

  datatype Base = Decimal | Hexadecimal

  datatype Directive =
    | Lit(c: char)                    // a literal format character, matched exactly
    | Space                           // a run of blanks in the format
    | Verb(base: Base, width: nat)    // `%d` (width HugeWid) or `%0Nx` / `%Nx`

  type Format = seq<Directive>

  /** Go's `isSpace`: the Unicode white space the scanner skips. */
  predicate IsSpace(c: char) {
    var n := c as int;
    (0x09 <= n <= 0x0d) || n == 0x20 || n == 0x85 || n == 0xa0 || n == 0x1680
    || (0x2000 <= n <= 0x200a) || n == 0x2028 || n == 0x2029 || n == 0x202f
    || n == 0x205f || n == 0x3000
  }

  /** White space other than newline: what `Sscanf` lets a blank run contain. */
  predicate IsBlank(c: char) {
    IsSpace(c) && c != '\n'
  }

  predicate IsDigit(b: Base, c: char) {
    match b
    case Decimal => '0' <= c <= '9'
    case Hexadecimal => '0' <= c <= '9' || 'a' <= c <= 'f' || 'A' <= c <= 'F'
  }

  predicate AllDigits(b: Base, s: string) {
    forall i :: 0 <= i < |s| ==> IsDigit(b, s[i])
  }

  function Radix(b: Base): nat {
    match b
    case Decimal => 10
    case Hexadecimal => 16
  }

  /** The value of a hex digit (0 for any other character, which no caller
      passes). */
  function DigitValue(c: char): (d: nat)
    ensures d < 16
    ensures IsDigit(Hexadecimal, c) ==> (IsDigit(Decimal, c) <==> d < 10)
  {
    if '0' <= c <= '9' then c as int - '0' as int
    else if 'a' <= c <= 'f' then c as int - 'a' as int + 10
    else if 'A' <= c <= 'F' then c as int - 'A' as int + 10
    else 0
  }

  /** The number a digit string denotes in base `b` (`strconv.ParseUint`). */
  function Value(b: Base, ds: string): nat {
    if ds == [] then 0
    else Value(b, ds[..|ds| - 1]) * Radix(b) + DigitValue(ds[|ds| - 1])
  }

  /** Drops the blanks at the front of `s`. */
  function DropBlanks(s: string): string {
    if s != [] && IsBlank(s[0]) then DropBlanks(s[1..]) else s
  }

  /** Go's `SkipSpace` as `Sscanf` runs it before every verb: skips blanks and
      fails on a newline. */
  function SkipSpace(s: string): Option<string> {
    var t := DropBlanks(s);
    if t != [] && t[0] == '\n' then None else Some(t)
  }

  /** A blank in the format: one or more blanks in the input, or end of input. */
  function MatchSpace(s: string): Option<string> {
    if s == [] then Some(s)
    else if IsBlank(s[0]) then Some(DropBlanks(s))
    else None
  }

  /** How many digits of base `b` the verb reads: the longest digit prefix of `s`
      of at most `w` characters. */
  function DigitSpan(b: Base, w: nat, s: string): (n: nat)
    ensures n <= w && n <= |s|
  {
    if w == 0 || s == [] || !IsDigit(b, s[0]) then 0
    else 1 + DigitSpan(b, w - 1, s[1..])
  }

  /** The span is a run of digits that the width or a non-digit ends. */
  lemma {:induction false} DigitSpanMaximal(b: Base, w: nat, s: string)
    ensures var n := DigitSpan(b, w, s);
      AllDigits(b, s[..n]) && (n < w && n < |s| ==> !IsDigit(b, s[n]))
  {
    if w > 0 && s != [] && IsDigit(b, s[0]) {
      DigitSpanMaximal(b, w - 1, s[1..]);
      var n := DigitSpan(b, w, s);
      assert forall i :: 1 <= i < n ==> s[..n][i] == s[1..][..n - 1][i - 1];
      if n < |s| {
        assert s[n] == s[1..][n - 1];
      }
    }
  }

  /** One integer verb into a `uint8`: skip blanks, read 1 to `w` digits, reject
      a value over 255. Yields the value and the unread input. */
  function ScanVerb(b: Base, w: nat, s: string): Option<(byte, string)> {
    match SkipSpace(s)
    case None => None
    case Some(t) =>
      var n := DigitSpan(b, w, t);
      if n == 0 then None
      else
        var v := Value(b, t[..n]);
        if v > 255 then None else Some((v, t[n..]))
  }

  /** The number of operands a format scans. */
  function Fields(f: Format): nat {
    if f == [] then 0 else (if f[0].Verb? then 1 else 0) + Fields(f[1..])
  }

  /** One directive: the value it scans (none for a literal or a blank) and the
      unread input, or None on a scan error. */
  function Step(d: Directive, s: string): (r: Option<(seq<byte>, string)>)
    ensures r.Some? ==> |r.value.0| == (if d.Verb? then 1 else 0)
  {
    match d
    case Lit(c) =>
      if s != [] && s[0] == c then Some(([], s[1..])) else None
    case Space =>
      (match MatchSpace(s)
       case None => None
       case Some(t) => Some(([], t)))
    case Verb(b, w) =>
      (match ScanVerb(b, w, s)
       case None => None
       case Some(vt) => Some(([vt.0], vt.1)))
  }

  /** `fmt.Sscanf(s, f, ...)`: the scanned values, or None on any scan error. */
  function Scanf(f: Format, s: string): (r: Option<seq<byte>>)
    ensures r.Some? ==> |r.value| == Fields(f)
    decreases |f|
  {
    if f == [] then Some([])
    else
      match Step(f[0], s)
      case None => None
      case Some(st) =>
        (match Scanf(f[1..], st.1)
         case None => None
         case Some(vs) => Some(st.0 + vs))
  }

  /** Scanning `[d] + f` after `d` has read `out` and left `t`. */
  lemma ScanfStep(d: Directive, f: Format, s: string, out: seq<byte>, t: string)
    requires Step(d, s) == Some((out, t))
    ensures Scanf([d] + f, s) == (match Scanf(f, t) case None => None case Some(vs) => Some(out + vs))
  {
    assert ([d] + f)[0] == d;
    assert ([d] + f)[1..] == f;
  }

  lemma ScanfUnfold(f: Format, s: string, out: seq<byte>, t: string, vs: seq<byte>)
    requires f != [] && Step(f[0], s) == Some((out, t)) && Scanf(f[1..], t) == Some(vs)
    ensures Scanf(f, s) == Some(out + vs)
  {
  }

  /** A literal that matches is consumed and the scan carries on. */
  lemma ScanLitPrefix(c: char, f: Format, s: string)
    ensures Scanf([Lit(c)] + f, [c] + s) == Scanf(f, s)
  {
    assert ([c] + s)[1..] == s;
    ScanfStep(Lit(c), f, [c] + s, [], s);
    if Scanf(f, s).Some? {
      assert [] + Scanf(f, s).value == Scanf(f, s).value;
    }
  }

  /** When the first `k` directives read their pieces and directive `k` fails,
      the scan fails. */
  lemma {:induction false} ScanfRunFails(f: Format, ss: seq<string>, outs: seq<seq<byte>>, k: nat)
    requires k < |f| && |ss| == k + 1 && |outs| == k
    requires forall i :: 0 <= i < k ==> Step(f[i], ss[i]) == Some((outs[i], ss[i + 1]))
    requires Step(f[k], ss[k]).None?
    ensures Scanf(f, ss[0]).None?
    decreases k
  {
    if k > 0 {
      ScanfRunFails(f[1..], ss[1..], outs[1..], k - 1);
    }
  }

  // ---------------------------------------------------------------------------
  // Printing: the text `fmt.Sprintf` writes for the same verbs.

  function DigitChar(d: nat): (c: char)
    requires d < 16
    ensures IsDigit(Hexadecimal, c) && DigitValue(c) == d
  {
    if d < 10 then ('0' as int + d) as char else ('a' as int + d - 10) as char
  }

  /** `%d`: decimal digits, no padding. */
  function DecString(v: nat): (s: string)
    ensures 1 <= |s|
  {
    var last := [DigitChar(v % 10)];
    if v < 10 then last else DecString(v / 10) + last
  }

  /** `%d` prints decimal digits that denote the value. */
  lemma {:induction false} DecStringValue(v: nat)
    ensures AllDigits(Decimal, DecString(v)) && Value(Decimal, DecString(v)) == v
  {
    var s := DecString(v);
    var d := DigitChar(v % 10);
    if v >= 10 {
      var front := DecString(v / 10);
      DecStringValue(v / 10);
      assert s == front + [d];
      assert s[..|s| - 1] == front;
    }
  }

  function Pow16(w: nat): (p: nat)
    ensures p >= 1
  {
    if w == 0 then 1 else 16 * Pow16(w - 1)
  }

  /** `%0wx`: exactly `w` lower-case hex digits; `v` itself when it fits. */
  function HexString(v: nat, w: nat): (s: string)
    ensures |s| == w
  {
    if w == 0 then [] else HexString(v / 16, w - 1) + [DigitChar(v % 16)]
  }

  /** `%0wx` prints hex digits that denote the value when it fits the width. */
  lemma {:induction false} HexStringValue(v: nat, w: nat)
    ensures AllDigits(Hexadecimal, HexString(v, w))
    ensures v < Pow16(w) ==> Value(Hexadecimal, HexString(v, w)) == v
  {
    if w > 0 {
      var s := HexString(v, w);
      var front := HexString(v / 16, w - 1);
      HexStringValue(v / 16, w - 1);
      assert s == front + [DigitChar(v % 16)];
      assert s[..|s| - 1] == front;
      assert v < Pow16(w) ==> v / 16 < Pow16(w - 1);
    }
  }

  /** A byte prints in at most three decimal digits. */
  lemma DecStringOfByte(v: byte)
    ensures |DecString(v)| <= 3
  {
    if v >= 10 {
      assert |DecString(v / 10)| <= 2 by {
        if v / 10 >= 10 { assert v / 100 < 10; }
      }
    }
  }

  /** The text one verb prints for `v`. */
  function PrintVerb(b: Base, w: nat, v: byte): string {
    match b
    case Decimal => DecString(v)
    case Hexadecimal => HexString(v, w)
  }

  /** What `fmt.Sprintf` writes for the directives used here: a hexadecimal verb
      writes exactly `width` digits, zero-padded as `%02x` does (so only values
      below 16^width print as Go would); a decimal verb ignores its width, which
      matches `%d` with no width but not Go's space padding for `%3d`; a format
      blank prints one space. */
  function Print(f: Format, vs: seq<byte>): string
    requires |vs| == Fields(f)
    decreases |f|
  {
    if f == [] then []
    else
      match f[0]
      case Lit(c) => [c] + Print(f[1..], vs)
      case Space => " " + Print(f[1..], vs)
      case Verb(b, w) => PrintVerb(b, w, vs[0]) + Print(f[1..], vs[1..])
  }

  // ---------------------------------------------------------------------------
  // Round trip: scanning what was printed yields the printed values.

  /** A directive the scanner can express: literals are neither blanks nor `%`,
      and a verb reads at least one digit. */
  predicate DirectiveOk(d: Directive) {
    match d
    case Lit(c) => !IsSpace(c) && c != '%'
    case Space => true
    case Verb(_, w) => w >= 1
  }

  /** Would scanning `d` run on into a following character `c`? A decimal verb
      reads every digit it meets and a blank run every blank; a hex verb stops at
      its width and a literal reads one character. */
  predicate Absorbs(d: Directive, c: char) {
    match d
    case Lit(_) => false
    case Space => IsBlank(c)
    case Verb(b, _) => b == Decimal && IsDigit(Decimal, c)
  }

  /** The first character `d` prints is one of these. */
  predicate MayStart(d: Directive, c: char) {
    match d
    case Lit(l) => c == l
    case Space => c == ' '
    case Verb(_, _) => IsDigit(Hexadecimal, c)
  }

  /** `next` never starts with a character `d` would absorb. */
  predicate CanFollow(d: Directive, next: Directive) {
    forall c :: MayStart(next, c) ==> !Absorbs(d, c)
  }

  predicate WellFormed(f: Format) {
    && (forall i :: 0 <= i < |f| ==> DirectiveOk(f[i]))
    && (forall i :: 0 <= i < |f| - 1 ==> CanFollow(f[i], f[i + 1]))
  }

  /** Every value prints within its verb's width (so the verb reads it back whole). */
  predicate Fits(f: Format, vs: seq<byte>)
    requires |vs| == Fields(f)
    decreases |f|
  {
    if f == [] then true
    else
      match f[0]
      case Verb(b, w) =>
        (b == Decimal ==> |DecString(vs[0])| <= w)
        && (b == Hexadecimal ==> vs[0] < Pow16(w))
        && Fits(f[1..], vs[1..])
      case _ => Fits(f[1..], vs)
  }

  /** A run of `n` digits that the width or a non-digit ends is the span. */
  lemma {:induction false} DigitSpanExact(b: Base, w: nat, s: string, n: nat)
    requires n <= w && n <= |s| && AllDigits(b, s[..n])
    requires n < w && n < |s| ==> !IsDigit(b, s[n])
    ensures DigitSpan(b, w, s) == n
  {
    if n > 0 {
      assert s[..n][0] == s[0];
      assert s[1..][..n - 1] == s[..n][1..];
      if n < |s| {
        assert s[1..][n - 1] == s[n];
      }
      DigitSpanExact(b, w - 1, s[1..], n - 1);
    }
  }

  /** What a verb prints is a run of its digits denoting the value. */
  lemma PrintVerbDigits(b: Base, w: nat, v: byte)
    requires b == Hexadecimal ==> v < Pow16(w)
    ensures AllDigits(b, PrintVerb(b, w, v)) && Value(b, PrintVerb(b, w, v)) == v
  {
    match b
    case Decimal => DecStringValue(v);
    case Hexadecimal => HexStringValue(v, w);
  }

  /** A verb reads back exactly the text it printed. */
  lemma ScanPrintVerb(b: Base, w: nat, v: byte, rest: string)
    requires w >= 1
    requires b == Decimal ==> |DecString(v)| <= w
    requires b == Hexadecimal ==> v < Pow16(w)
    requires rest == [] || !Absorbs(Verb(b, w), rest[0])
    ensures ScanVerb(b, w, PrintVerb(b, w, v) + rest) == Some((v, rest))
  {
    var p := PrintVerb(b, w, v);
    var s := p + rest;
    PrintVerbDigits(b, w, v);
    assert p[0] == s[0];
    assert IsDigit(Hexadecimal, s[0]);
    assert DropBlanks(s) == s;
    assert s[..|p|] == p;
    assert AllDigits(b, p);
    if |p| < w && |p| < |s| {
      assert s[|p|] == rest[0];
    }
    DigitSpanExact(b, w, s, |p|);
    assert s[|p|..] == rest;
  }

  lemma PrintStart(f: Format, vs: seq<byte>)
    requires f != [] && DirectiveOk(f[0]) && |vs| == Fields(f) && Fits(f, vs)
    ensures Print(f, vs) != [] && MayStart(f[0], Print(f, vs)[0])
  {
    match f[0]
    case Lit(c) =>
    case Space =>
    case Verb(b, w) =>
      var p := PrintVerb(b, w, vs[0]);
      PrintVerbDigits(b, w, vs[0]);
      assert Print(f, vs)[0] == p[0];
  }

  lemma ScanLit(f: Format, vs: seq<byte>, tail: string)
    requires f != [] && f[0].Lit? && |vs| == Fields(f)
    requires Scanf(f[1..], Print(f[1..], vs) + tail) == Some(vs)
    ensures Scanf(f, Print(f, vs) + tail) == Some(vs)
  {
    var rest := Print(f[1..], vs) + tail;
    var s := [f[0].c] + rest;
    assert Print(f, vs) + tail == s;
    assert s[1..] == rest;
    assert Step(f[0], s) == Some(([], rest));
    ScanfUnfold(f, s, [], rest, vs);
    assert [] + vs == vs;
  }

  lemma ScanSpace(f: Format, vs: seq<byte>, tail: string)
    requires f != [] && f[0] == Space && |vs| == Fields(f)
    requires var rest := Print(f[1..], vs) + tail;
      (rest == [] || !IsBlank(rest[0])) && Scanf(f[1..], rest) == Some(vs)
    ensures Scanf(f, Print(f, vs) + tail) == Some(vs)
  {
    var rest := Print(f[1..], vs) + tail;
    var s := " " + rest;
    assert Print(f, vs) + tail == s;
    assert IsBlank(s[0]);
    assert s[1..] == rest;
    assert DropBlanks(rest) == rest;
    assert DropBlanks(s) == rest;
    assert MatchSpace(s) == Some(rest);
    assert Step(Space, s) == Some(([], rest));
    ScanfUnfold(f, s, [], rest, vs);
    assert [] + vs == vs;
  }

  lemma PrintVerbHead(f: Format, vs: seq<byte>)
    requires f != [] && f[0].Verb? && |vs| == Fields(f) && Fits(f, vs)
    ensures Print(f, vs) == PrintVerb(f[0].base, f[0].width, vs[0]) + Print(f[1..], vs[1..])
    ensures f[0].base == Decimal ==> |DecString(vs[0])| <= f[0].width
    ensures f[0].base == Hexadecimal ==> vs[0] < Pow16(f[0].width)
  {
  }

  lemma ScanVerbHead(f: Format, vs: seq<byte>, tail: string)
    requires f != [] && f[0].Verb? && f[0].width >= 1 && |vs| == Fields(f) && Fits(f, vs)
    requires var rest := Print(f[1..], vs[1..]) + tail;
      (rest == [] || !Absorbs(f[0], rest[0])) && Scanf(f[1..], rest) == Some(vs[1..])
    ensures Scanf(f, Print(f, vs) + tail) == Some(vs)
  {
    var rest := Print(f[1..], vs[1..]) + tail;
    var b, w := f[0].base, f[0].width;
    var s := PrintVerb(b, w, vs[0]) + rest;
    PrintVerbHead(f, vs);
    AppendAssoc(PrintVerb(b, w, vs[0]), Print(f[1..], vs[1..]), tail);
    ScanPrintVerb(b, w, vs[0], rest);
    VerbThen(f, s, vs[0], rest, vs[1..]);
    assert [vs[0]] + vs[1..] == vs;
  }

  lemma AppendAssoc(x: string, y: string, z: string)
    ensures (x + y) + z == x + (y + z)
  {
  }

  /** A verb that scans `v` followed by the rest of the format. */
  lemma VerbThen(f: Format, s: string, v: byte, rest: string, vs: seq<byte>)
    requires f != [] && f[0].Verb? && ScanVerb(f[0].base, f[0].width, s) == Some((v, rest))
    requires Scanf(f[1..], rest) == Some(vs)
    ensures Scanf(f, s) == Some([v] + vs)
  {
    assert Step(f[0], s) == Some(([v], rest));
    ScanfUnfold(f, s, [v], rest, vs);
  }

  lemma {:induction false} ScanPrintRoundTrip(f: Format, vs: seq<byte>, tail: string)
    requires WellFormed(f) && |vs| == Fields(f) && Fits(f, vs)
    requires f != [] && tail != [] ==> !Absorbs(f[|f| - 1], tail[0])
    ensures Scanf(f, Print(f, vs) + tail) == Some(vs)
    decreases |f|
  {
    if f != [] {
      var f' := f[1..];
      assert WellFormed(f') by {
        forall i | 0 <= i < |f'| - 1 ensures CanFollow(f'[i], f'[i + 1]) {
          assert CanFollow(f[i + 1], f[i + 2]);
        }
      }
      var vs' := if f[0].Verb? then vs[1..] else vs;
      var q := Print(f', vs');
      var rest := q + tail;
      assert f' != [] && tail != [] ==> f'[|f'| - 1] == f[|f| - 1];
      ScanPrintRoundTrip(f', vs', tail);
      assert rest == [] || !Absorbs(f[0], rest[0]) by {
        if f' != [] {
          PrintStart(f', vs');
          assert rest[0] == q[0];
          assert CanFollow(f[0], f[1]);
        }
      }
      match f[0]
      case Lit(_) => ScanLit(f, vs, tail);
      case Space => ScanSpace(f, vs, tail);
      case Verb(_, _) => ScanVerbHead(f, vs, tail);
    }
  }
}
