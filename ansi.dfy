/** The terminal-colour helpers of the step trace: `strip_ansi` removes SGR
    escape sequences (ESC '[' then digits and ';' then 'm'), `hex_to_rgb`
    reads a "#rrggbb" colour and `colorize_ansi` wraps text in a 24-bit
    foreground colour sequence and a reset. */
module Ansi {
  import opened Outcome
  import opened Digits

  const ESC: char := '\U{1B}'

  /** The characters the pattern `[0-9;]*` accepts. */
  predicate SgrChar(c: char) {
    IsDigit(c) || c == ';'
  }

  predicate AllSgr(s: string) {
    forall i :: 0 <= i < |s| ==> SgrChar(s[i])
  }

  /** The length of the longest prefix of `s` made of SGR characters. */
  function SgrRun(s: string): (n: nat)
    ensures n <= |s|
    ensures forall i :: 0 <= i < n ==> SgrChar(s[i])
    ensures n < |s| ==> !SgrChar(s[n])
  {
    if s == [] || !SgrChar(s[0]) then 0 else 1 + SgrRun(s[1..])
  }

  /** The length of the escape sequence `\x1b\[[0-9;]*m` that starts `s`,
      or 0 when none does. The run of SGR characters is greedy; since 'm'
      is not one of them, no shorter run could be followed by 'm'. */
  function MatchLength(s: string): (n: nat)
    ensures n == 0 || 3 <= n <= |s|
    ensures n > 0 ==> s[0] == ESC && s[1] == '[' && AllSgr(s[2..n - 1]) && s[n - 1] == 'm'
  {
    if |s| >= 2 && s[0] == ESC && s[1] == '[' then
      var k := SgrRun(s[2..]);
      if 2 + k < |s| && s[2 + k] == 'm' then 3 + k else 0
    else 0
  }

  /** `strip_ansi`: `re.sub` of the pattern with "", scanning left to right
      and resuming after each removed match. */
  function StripAnsi(s: string): (r: string)
    ensures |r| <= |s|
    decreases |s|
  {
    if s == [] then []
    else if MatchLength(s) > 0 then StripAnsi(s[MatchLength(s)..])
    else [s[0]] + StripAnsi(s[1..])
  }

  /** A string with no ESC character is left as it is, and so is anything
      after it: no match can start inside it. */
  lemma {:induction false} StripPlain(t: string, rest: string)
    requires ESC !in t
    ensures StripAnsi(t + rest) == t + StripAnsi(rest)
    decreases |t|
  {
    if t != [] {
      var s := t + rest;
      assert s[0] == t[0] && s[1..] == t[1..] + rest;
      assert MatchLength(s) == 0;
      assert StripAnsi(s) == [t[0]] + StripAnsi(t[1..] + rest);
      StripPlain(t[1..], rest);
      assert [t[0]] + (t[1..] + StripAnsi(rest)) == t + StripAnsi(rest);
    } else {
      assert t + rest == rest;
    }
  }

  lemma StripEscapeFree(t: string)
    requires ESC !in t
    ensures StripAnsi(t) == t
  {
    StripPlain(t, []);
    assert t + [] == t;
  }

  /** The escape sequence with parameters `code`. */
  function Sgr(code: string): string {
    [ESC, '['] + code + ['m']
  }

  /** A complete escape sequence at the front is removed. */
  lemma StripSequence(code: string, rest: string)
    requires AllSgr(code)
    ensures StripAnsi(Sgr(code) + rest) == StripAnsi(rest)
  {
    var s := Sgr(code) + rest;
    assert s[2..] == code + ['m'] + rest;
    var k := SgrRun(s[2..]);
    assert s[2..][|code|] == 'm';
    assert k == |code|;
    assert MatchLength(s) == 3 + |code|;
    assert s[3 + |code|..] == rest;
  }

  /** An ESC that starts no complete sequence is kept. */
  lemma StripKeepsEscape(s: string)
    requires s != [] && s[0] == ESC && MatchLength(s) == 0
    ensures StripAnsi(s) == [ESC] + StripAnsi(s[1..])
  {
  }

  /** ASCII whitespace, as `str.strip()` removes it inside `int()`. */
  predicate Blank(c: char) {
    c == ' ' || c == '\t' || c == '\n' || c == '\r' || c == '\U{0B}' || c == '\U{0C}'
  }

  /** `s.strip()` with no argument. */
  function Trim(s: string): (r: string)
    ensures |r| <= |s|
    ensures r != [] ==> !Blank(r[0]) && !Blank(r[|r| - 1])
    decreases |s|
  {
    if s == [] then []
    else if Blank(s[0]) then Trim(s[1..])
    else if Blank(s[|s| - 1]) then Trim(s[..|s| - 1])
    else s
  }

  predicate IsHexDigit(c: char) {
    IsDigit(c) || 'a' <= c <= 'f' || 'A' <= c <= 'F'
  }

  function HexValue(c: char): (v: nat)
    requires IsHexDigit(c)
    ensures v < 16
  {
    if IsDigit(c) then DigitValue(c)
    else if 'a' <= c <= 'f' then c as int - 'a' as int + 10
    else c as int - 'A' as int + 10
  }

  const HexError := ValueError("invalid literal for int() with base 16")

  /** `int(piece, 16)` for the at most two characters `hex_to_rgb` passes:
      after stripping whitespace, one or two hex digits, or a sign and one
      digit (a "0x" prefix or an underscore needs three characters). */
  function ParseHexPiece(piece: string): (r: Result<int>)
    requires |piece| <= 2
    ensures r.Ok? ==> -15 <= r.value <= 255
  {
    var t := Trim(piece);
    if |t| == 1 && IsHexDigit(t[0]) then Ok(HexValue(t[0]))
    else if |t| == 2 && IsHexDigit(t[0]) && IsHexDigit(t[1]) then Ok(16 * HexValue(t[0]) + HexValue(t[1]))
    else if |t| == 2 && t[0] == '+' && IsHexDigit(t[1]) then Ok(HexValue(t[1]))
    else if |t| == 2 && t[0] == '-' && IsHexDigit(t[1]) then Ok(-(HexValue(t[1]) as int))
    else Err(HexError)
  }

  /** `s.lstrip("#")`. */
  function DropHashes(s: string): (r: string)
    ensures r == [] || r[0] != '#'
  {
    if s != [] && s[0] == '#' then DropHashes(s[1..]) else s
  }

  /** Python's slice `s[i:i + 2]` for `i >= 0`, clamped to the string. */
  function TwoAt(s: string, i: nat): (r: string)
    ensures |r| <= 2
  {
    if i >= |s| then [] else if i + 2 >= |s| then s[i..] else s[i..i + 2]
  }

  datatype Rgb = Rgb(red: int, green: int, blue: int)

  /** `hex_to_rgb`: the pairs at 0, 2 and 4 after stripping '#', read in that
      order, so the first bad pair raises. */
  function HexToRgb(color: string): (r: Result<Rgb>)
    ensures r.Ok? ==> -15 <= r.value.red <= 255 && -15 <= r.value.green <= 255 && -15 <= r.value.blue <= 255
  {
    var h := DropHashes(color);
    var red :- ParseHexPiece(TwoAt(h, 0));
    var green :- ParseHexPiece(TwoAt(h, 2));
    var blue :- ParseHexPiece(TwoAt(h, 4));
    Ok(Rgb(red, green, blue))
  }

  /** The parameters of the colour sequence `colorize_ansi` opens with. */
  function Opening(rgb: Rgb): string {
    "38;2;" + (IntToString(rgb.red) + (";" + (IntToString(rgb.green) + (";" + IntToString(rgb.blue)))))
  }

  /** `colorize_ansi`: ESC[38;2;r;g;bm, the text, ESC[0m. */
  function ColorizeAnsi(text: string, color: string): (r: Result<string>)
    ensures r.Ok? <==> HexToRgb(color).Ok?
    ensures r.Ok? ==> |r.value| > |text| + 10
  {
    var rgb :- HexToRgb(color);
    Ok(Sgr(Opening(rgb)) + text + Sgr("0"))
  }

  /** Two lower-case hex digits for a byte: the partner `hex_to_rgb` reads. */
  function HexByte(v: nat): (s: string)
    requires v < 256
    ensures |s| == 2 && IsHexDigit(s[0]) && IsHexDigit(s[1])
  {
    [HexChar(v / 16), HexChar(v % 16)]
  }

  function HexChar(d: nat): (c: char)
    requires d < 16
    ensures IsHexDigit(c) && HexValue(c) == d
  {
    if d < 10 then DigitChar(d) else ('a' as int + d - 10) as char
  }

  lemma PieceOfByte(v: nat)
    requires v < 256
    ensures ParseHexPiece(HexByte(v)) == Ok(v)
  {
    var s := HexByte(v);
    assert Trim(s) == s;
  }

  lemma HashesDropped(hashes: nat, rest: string)
    requires rest == [] || rest[0] != '#'
    ensures DropHashes(Repeat('#', hashes) + rest) == rest
    decreases hashes
  {
    if hashes > 0 {
      var s := Repeat('#', hashes) + rest;
      assert Repeat('#', hashes) == ['#'] + Repeat('#', hashes - 1);
      assert s == ['#'] + (Repeat('#', hashes - 1) + rest);
      assert s[0] == '#' && s[1..] == Repeat('#', hashes - 1) + rest;
      HashesDropped(hashes - 1, rest);
    }
  }

  function Repeat(c: char, n: int): (s: string)
    ensures |s| == if n < 0 then 0 else n
    ensures forall i :: 0 <= i < |s| ==> s[i] == c
    decreases n
  {
    if n <= 0 then [] else [c] + Repeat(c, n - 1)
  }

  /** Any number of leading '#' followed by three hex bytes reads back as
      those bytes. */
  lemma {:induction false} HexToRgbOfBytes(hashes: nat, red: nat, green: nat, blue: nat)
    requires red < 256 && green < 256 && blue < 256
    ensures HexToRgb(Repeat('#', hashes) + HexByte(red) + HexByte(green) + HexByte(blue)) == Ok(Rgb(red, green, blue))
  {
    var h := HexByte(red) + HexByte(green) + HexByte(blue);
    assert Repeat('#', hashes) + HexByte(red) + HexByte(green) + HexByte(blue) == Repeat('#', hashes) + h;
    HashesDropped(hashes, h);
    assert TwoAt(h, 0) == HexByte(red);
    assert TwoAt(h, 2) == HexByte(green);
    assert TwoAt(h, 4) == HexByte(blue);
    PieceOfByte(red);
    PieceOfByte(green);
    PieceOfByte(blue);
  }

  lemma NonNegativeSgr(i: int)
    requires i >= 0
    ensures AllSgr(IntToString(i))
  {
  }

  lemma OpeningSgr(rgb: Rgb)
    requires rgb.red >= 0 && rgb.green >= 0 && rgb.blue >= 0
    ensures AllSgr(Opening(rgb))
  {
    NonNegativeSgr(rgb.red);
    NonNegativeSgr(rgb.green);
    NonNegativeSgr(rgb.blue);
  }

  /** A '-' after a run of SGR characters ends the run without an 'm'. */
  lemma BrokenRun(a: string, b: string, rest: string)
    requires AllSgr(a) && b != [] && b[0] == '-'
    ensures MatchLength([ESC, '['] + (a + b) + rest) == 0
  {
    var s := [ESC, '['] + (a + b) + rest;
    assert s[2..] == a + (b + rest);
    assert s[2..][|a|] == '-';
    assert forall i :: 0 <= i < |a| ==> s[2..][i] == a[i];
    var k := SgrRun(s[2..]);
    assert k <= |a| by {
      assert !SgrChar(s[2..][|a|]);
    }
    assert k == |a|;
  }

  /** A negative component puts a '-' into the run, so the opening sequence
      is not a match. */
  lemma OpeningBroken(rgb: Rgb, rest: string)
    requires rgb.red < 0 || rgb.green < 0 || rgb.blue < 0
    ensures MatchLength(Sgr(Opening(rgb)) + rest) == 0
  {
    var r, g, b := IntToString(rgb.red), IntToString(rgb.green), IntToString(rgb.blue);
    var tail := ['m'] + rest;
    assert Sgr(Opening(rgb)) + rest == [ESC, '['] + Opening(rgb) + tail;
    if rgb.red < 0 {
      BrokenRun("38;2;", r + (";" + (g + (";" + b))), tail);
    } else if rgb.green < 0 {
      NonNegativeSgr(rgb.red);
      assert Opening(rgb) == ("38;2;" + r + ";") + (g + (";" + b));
      BrokenRun("38;2;" + r + ";", g + (";" + b), tail);
    } else {
      NonNegativeSgr(rgb.red);
      NonNegativeSgr(rgb.green);
      assert Opening(rgb) == ("38;2;" + r + ";" + g + ";") + b;
      BrokenRun("38;2;" + r + ";" + g + ";", b, tail);
    }
  }

  /** strip_ansi(colorize_ansi(t, c)) == t for text without escapes exactly
      when the colour's three components are not negative. */
  lemma StripColorized(text: string, color: string)
    requires ESC !in text && HexToRgb(color).Ok?
    ensures var rgb := HexToRgb(color).value;
      StripAnsi(ColorizeAnsi(text, color).value) == text <==> rgb.red >= 0 && rgb.green >= 0 && rgb.blue >= 0
  {
    var rgb := HexToRgb(color).value;
    var s := ColorizeAnsi(text, color).value;
    assert s == Sgr(Opening(rgb)) + (text + Sgr("0"));
    if rgb.red >= 0 && rgb.green >= 0 && rgb.blue >= 0 {
      OpeningSgr(rgb);
      StripSequence(Opening(rgb), text + Sgr("0"));
      StripPlain(text, Sgr("0"));
      StripSequence("0", []);
      assert Sgr("0") + [] == Sgr("0");
      assert StripAnsi(s) == text + [];
    } else {
      OpeningBroken(rgb, text + Sgr("0"));
      StripKeepsEscape(s);
      assert StripAnsi(s)[0] == ESC;
      assert StripAnsi(s) != text;
    }
  }
}
