/** `Beacon` (src/lib.rs): a label and a 64-bit value, coloured by a hash
    of the value and rendered with 24-bit ANSI escapes. */
module Beacons {
  import opened Words
  import opened Wrappers
  import opened Numerals
  import opened Sector
  import opened Mix

  type Rgb8 = Rgb<u8>

  /** The foreground and background colours derived from a hash. */
  datatype Palette = Palette(fg: Rgb8, bg: Rgb8)

  datatype Beacon = Beacon(fg: Rgb8, bg: Rgb8, name: string, val: u64)

  /** `Beacon::new`. The floating-point part of the colour derivation (hue
      from the hash, then `hsl_to_rgb` twice) is the parameter `paint`: it
      sees the hash of the value and nothing else. */
  function New(name: string, u: u64, paint: u64 -> Palette): (b: Beacon)
    ensures b.name == name && b.val == u
    ensures Palette(b.fg, b.bg) == paint(Hash(u))
  {
    var colours := paint(Hash(u));
    Beacon(colours.fg, colours.bg, name, u)
  }

  /** `Beacon::from_ptr`: the pointer's address is the value. */
  function FromPtr(name: string, address: u64, paint: u64 -> Palette): (b: Beacon)
    ensures b.name == name && b.val == address
    ensures Palette(b.fg, b.bg) == paint(Hash(address))
  {
    New(name, address, paint)
  }

  /** `Beacon::from_ref`: the referent's address is the value. */
  function FromRef(name: string, address: u64, paint: u64 -> Palette): (b: Beacon)
    ensures b.name == name && b.val == address
    ensures Palette(b.fg, b.bg) == paint(Hash(address))
  {
    New(name, address, paint)
  }

  /** The colours of a beacon depend on its value alone, whatever its
      label. */
  lemma ColoursIgnoreName(name1: string, name2: string, u: u64, paint: u64 -> Palette)
    ensures New(name1, u, paint).fg == New(name2, u, paint).fg
    ensures New(name1, u, paint).bg == New(name2, u, paint).bg
  {
  }

  const ESC: char := '\U{1B}'

  /** SGR parameter selecting the background and the foreground colour. */
  const BACKGROUND: string := "48"
  const FOREGROUND: string := "38"

  /** `ESC [ 0 m`: back to the terminal's default colours. */
  const RESET: string := [ESC] + "[0m"

  /** The separator between label and value. */
  const SEPARATOR: char := '#'

  /** `ESC [ code ; 2 ;`: the start of a 24-bit colour escape. */
  function SgrLead(code: string): string
  {
    [ESC] + "[" + code + ";2;"
  }

  /** `r;g;bm` in decimal. */
  function SgrChannels(c: Rgb8): string
  {
    Dec(c.r) + ";" + Dec(c.g) + ";" + Dec(c.b) + "m"
  }

  function Sgr(code: string, c: Rgb8): string
  {
    SgrLead(code) + SgrChannels(c)
  }

  /** `impl Display for Beacon`: the text opens with the background
      escape and closes by resetting the colours. */
  function Render(b: Beacon): (r: string)
    ensures SgrLead(BACKGROUND) <= r
    ensures |r| >= |RESET| && r[|r| - |RESET|..] == RESET
  {
    var bg := Sgr(BACKGROUND, b.bg);
    var rest := Sgr(FOREGROUND, b.fg) + b.name + [SEPARATOR] + Hex(b.val) + RESET;
    assert bg[..|SgrLead(BACKGROUND)|] == SgrLead(BACKGROUND);
    bg + rest
  }

  /** The text opens with the 24-bit background escape, then the
      foreground escape, and closes with the name, `#`, the hex value and
      the reset escape. */
  lemma RenderFrame(b: Beacon)
    ensures var text := Render(b);
            var tail := b.name + "#" + Hex(b.val) + "\U{1B}[0m";
            && |text| >= 7 + |tail|
            && text[..7] == "\U{1B}[48;2;"
            && text[|text| - |tail|..] == tail
            && "\U{1B}[38;2;" <= text[|Sgr(BACKGROUND, b.bg)|..]
  {
    var bg := Sgr(BACKGROUND, b.bg);
    var fg := Sgr(FOREGROUND, b.fg);
    var tail := b.name + "#" + Hex(b.val) + "\U{1B}[0m";
    assert Render(b) == bg + (fg + tail);
    assert bg[..7] == "\U{1B}[48;2;";
    assert fg[..7] == "\U{1B}[38;2;";
  }

  /** Each colour escape is 13 to 19 characters, the hex value 1 to 16. */
  lemma RenderLength(b: Beacon)
    ensures |b.name| + 32 <= |Render(b)| <= |b.name| + 59
  {
    DecOfByte(b.bg.r);
    DecOfByte(b.bg.g);
    DecOfByte(b.bg.b);
    DecOfByte(b.fg.r);
    DecOfByte(b.fg.g);
    DecOfByte(b.fg.b);
    HexOfWord(b.val);
  }

  /** Reads one decimal channel and the character that ends it. */
  function ParseChannel(s: string, stop: char): (r: Option<(u8, string)>)
    ensures r.Some? ==> |r.value.1| < |s|
  {
    var (digits, rest) := SpanDigits(s);
    if digits == [] || rest == [] || rest[0] != stop then None
    else
      var v := Value(digits, 10);
      if v < U8_LIMIT then Some((v, rest[1..])) else None
  }

  /** Reads `r;g;bm`. */
  function ParseChannels(s: string): Option<(Rgb8, string)>
  {
    match ParseChannel(s, ';')
    case None => None
    case Some((r, s1)) =>
      match ParseChannel(s1, ';')
      case None => None
      case Some((g, s2)) =>
        match ParseChannel(s2, 'm')
        case None => None
        case Some((b, s3)) => Some((Rgb(r, g, b), s3))
  }

  /** Reads one 24-bit colour escape with the given SGR code. */
  function ParseSgr(code: string, s: string): Option<(Rgb8, string)>
  {
    var lead := SgrLead(code);
    if lead <= s then ParseChannels(s[|lead|..]) else None
  }

  /** Splits at the last occurrence of `ch`. */
  function SplitLast(s: string, ch: char): (r: Option<(string, string)>)
    ensures r.None? <==> ch !in s
    ensures r.Some? ==> r.value.0 + [ch] + r.value.1 == s && ch !in r.value.1
  {
    if s == [] then None
    else if s[|s| - 1] == ch then
      assert s[..|s| - 1] + [ch] + [] == s;
      Some((s[..|s| - 1], []))
    else
      match SplitLast(s[..|s| - 1], ch)
      case None =>
        assert s == s[..|s| - 1] + [s[|s| - 1]];
        None
      case Some((front, back)) =>
        assert front + [ch] + (back + [s[|s| - 1]]) == s[..|s| - 1] + [s[|s| - 1]] == s;
        Some((front, back + [s[|s| - 1]]))
  }

  /** The inverse of `Render`: recovers colours, label and value. */
  function Unrender(s: string): Option<Beacon>
  {
    match ParseSgr(BACKGROUND, s)
    case None => None
    case Some((bg, s1)) =>
      match ParseSgr(FOREGROUND, s1)
      case None => None
      case Some((fg, s2)) =>
        if |s2| < |RESET| || s2[|s2| - |RESET|..] != RESET then None
        else match SplitLast(s2[..|s2| - |RESET|], SEPARATOR)
          case None => None
          case Some((name, hex)) =>
            if hex == [] || !AllDigits(hex, 16) then None
            else
              var v := Value(hex, 16);
              if v < U64_LIMIT then Some(Beacon(fg, bg, name, v)) else None
  }

  lemma ParseChannelOfDec(n: u8, stop: char, rest: string)
    requires DigitValue(stop) >= 10
    ensures ParseChannel(Dec(n) + [stop] + rest, stop) == Some((n, rest))
  {
    SpanDigitsOf(Dec(n), [stop] + rest);
    assert Dec(n) + [stop] + rest == Dec(n) + ([stop] + rest);
    ValueOfFormat(n, 10);
  }

  lemma ParseChannelsOf(c: Rgb8, rest: string)
    ensures ParseChannels(SgrChannels(c) + rest) == Some((c, rest))
  {
    var s2 := Dec(c.b) + ['m'] + rest;
    var s1 := Dec(c.g) + [';'] + s2;
    var s0 := Dec(c.r) + [';'] + s1;
    assert SgrChannels(c) + rest == s0;
    ParseChannelOfDec(c.r, ';', s1);
    ParseChannelOfDec(c.g, ';', s2);
    ParseChannelOfDec(c.b, 'm', rest);
    assert ParseChannel(s0, ';') == Some((c.r, s1));
    assert ParseChannel(s1, ';') == Some((c.g, s2));
    assert ParseChannel(s2, 'm') == Some((c.b, rest));
  }

  lemma ParseSgrOfSgr(code: string, c: Rgb8, rest: string)
    ensures ParseSgr(code, Sgr(code, c) + rest) == Some((c, rest))
  {
    var lead := SgrLead(code);
    var s := Sgr(code, c) + rest;
    assert s == lead + (SgrChannels(c) + rest);
    assert s[|lead|..] == SgrChannels(c) + rest;
    ParseChannelsOf(c, rest);
  }

  lemma SplitTails(f: string, b: string, front: string, back: string, ch: char)
    requires f + [ch] + b == front + [ch] + back
    ensures |b| < |back| ==> back[|back| - |b| - 1] == ch
  {
    var s := f + [ch] + b;
    if |b| < |back| {
      assert s[|f|] == ch;
      assert s[|f|] == back[|back| - |b| - 1];
    }
  }

  /** The last separator is the one `Render` wrote, since hex digits never
      contain it. */
  lemma {:induction false} SplitLastOf(front: string, ch: char, back: string)
    requires ch !in back
    ensures SplitLast(front + [ch] + back, ch) == Some((front, back))
  {
    var s := front + [ch] + back;
    var r := SplitLast(s, ch);
    assert ch in s by { assert s[|front|] == ch; }
    var (f, b) := r.value;
    SplitTails(f, b, front, back, ch);
    SplitTails(front, back, f, b, ch);
    assert |b| == |back|;
    assert f == s[..|f|] == front;
    assert b == s[|f| + 1..] == back;
  }

  /** Rendering loses nothing: the text determines the beacon. */
  lemma UnrenderRender(b: Beacon)
    ensures Unrender(Render(b)) == Some(b)
  {
    var hex := Hex(b.val);
    var tail := b.name + [SEPARATOR] + hex;
    var s2 := tail + RESET;
    var s1 := Sgr(FOREGROUND, b.fg) + s2;
    assert Render(b) == Sgr(BACKGROUND, b.bg) + s1;
    ParseSgrOfSgr(BACKGROUND, b.bg, s1);
    ParseSgrOfSgr(FOREGROUND, b.fg, s2);
    assert s2[|s2| - |RESET|..] == RESET;
    assert s2[..|s2| - |RESET|] == tail;
    HexOfWord(b.val);
    SplitLastOf(b.name, SEPARATOR, hex);
  }

  /** Distinct beacons render to distinct text. */
  lemma RenderInjective(b1: Beacon, b2: Beacon)
    ensures Render(b1) == Render(b2) <==> b1 == b2
  {
    UnrenderRender(b1);
    UnrenderRender(b2);
  }
}
