/**
 * The colour value and its hex notation (SimpleColorParser) from the
 * colour-mixer tool.
 */
module Colors {
  import opened Wrappers
  import opened Text

  type Byte = x: int | 0 <= x < 256

  /** System.Drawing.Color as far as these operations use it. */
  datatype Color = Color(a: Byte, r: Byte, g: Byte, b: Byte)

  /** Color.FromArgb(r, g, b): an opaque colour. */
  function FromRgb(r: Byte, g: Byte, b: Byte): Color {
    Color(255, r, g, b)
  }

  datatype ColorError =
    | NullArgument      // ArgumentNullException
    | NotSixCharacters  // FormatException "#RRGGBB"
    | BadHexPair        // FormatException or ArgumentException from Convert.ToByte
    | EmptyList         // ArgumentException "the list is empty"

  predicate IsHexDigit(c: char) {
    ('0' <= c <= '9') || ('a' <= c <= 'f') || ('A' <= c <= 'F')
  }

  function HexValue(c: char): (v: nat)
    requires IsHexDigit(c)
    ensures v < 16
  {
    if '0' <= c <= '9' then c as int - '0' as int
    else if 'a' <= c <= 'f' then c as int - 'a' as int + 10
    else c as int - 'A' as int + 10
  }

  /** The digit that format specifier X writes for a value below 16. */
  function UpperHexDigit(v: nat): (c: char)
    requires v < 16
    ensures IsHexDigit(c) && HexValue(c) == v && !('a' <= c <= 'f')
  {
    if v < 10 then ('0' as int + v) as char else ('A' as int + v - 10) as char
  }

  function UpperHex(c: char): (u: char)
    requires IsHexDigit(c)
    ensures u == UpperHexDigit(HexValue(c))
  {
    if 'a' <= c <= 'f' then (c as int - 32) as char else c
  }

  /**
   * Convert.ToByte(pair, 16) on a two-character string. The .NET parser skips a
   * leading '+', so "+F" is accepted as 15; '-' and anything that is not a hex
   * digit are rejected.
   */
  function HexPairToByte(p: string): (r: Option<Byte>)
    requires |p| == 2
    ensures r.Some? <==> IsHexDigit(p[1]) && (IsHexDigit(p[0]) || p[0] == '+')
    ensures r.Some? && IsHexDigit(p[0]) ==> r.value == 16 * HexValue(p[0]) + HexValue(p[1])
  {
    if IsHexDigit(p[0]) && IsHexDigit(p[1]) then Some(16 * HexValue(p[0]) + HexValue(p[1]))
    else if p[0] == '+' && IsHexDigit(p[1]) then Some(HexValue(p[1]))
    else None
  }

  /** What ParseHex keeps of its argument: trimmed, with one leading '#' removed. */
  function HexBody(s: string): string {
    var t := Trim(s);
    if |t| > 0 && t[0] == '#' then t[1..] else t
  }

  /** The last step of ParseHex: the three pairs of a six-character body. */
  function ParseBody(body: string): (r: Result<Color, ColorError>)
    requires |body| == 6
    ensures r.Success? ==> r.value.a == 255
    ensures r.Success? <==>
      && HexPairToByte(body[0..2]).Some?
      && HexPairToByte(body[2..4]).Some?
      && HexPairToByte(body[4..6]).Some?
  {
    var r := HexPairToByte(body[0..2]);
    var g := HexPairToByte(body[2..4]);
    var b := HexPairToByte(body[4..6]);
    if r.None? || g.None? || b.None? then Failure(BadHexPair)
    else Success(FromRgb(r.value, g.value, b.value))
  }

  /** SimpleColorParser.ParseHex; `None` stands for a null argument. */
  function ParseHex(hex: Option<string>): (r: Result<Color, ColorError>)
    ensures hex.None? ==> r == Failure(NullArgument)
    ensures hex.Some? && |HexBody(hex.value)| != 6 ==> r == Failure(NotSixCharacters)
    ensures r.Success? ==> r.value.a == 255
    ensures hex.Some? && |HexBody(hex.value)| == 6 ==>
      (r.Success? <==>
        && HexPairToByte(HexBody(hex.value)[0..2]).Some?
        && HexPairToByte(HexBody(hex.value)[2..4]).Some?
        && HexPairToByte(HexBody(hex.value)[4..6]).Some?)
  {
    if hex.None? then Failure(NullArgument)
    else
      var body := HexBody(hex.value);
      if |body| != 6 then Failure(NotSixCharacters) else ParseBody(body)
  }

  /** Format specifier X2: two upper-case hex digits whose value is `v`. */
  function X2(v: Byte): (s: string)
    ensures |s| == 2 && IsHexDigit(s[0]) && IsHexDigit(s[1])
    ensures 16 * HexValue(s[0]) + HexValue(s[1]) == v
    ensures !('a' <= s[0] <= 'f') && !('a' <= s[1] <= 'f')
  {
    [UpperHexDigit(v / 16), UpperHexDigit(v % 16)]
  }

  /** SimpleColorParser.ToHex: "#RRGGBB" in upper case; alpha is not written. */
  function ToHex(c: Color): (s: string)
    ensures |s| == 7 && s[0] == '#'
    ensures forall i :: 1 <= i < 7 ==> IsHexDigit(s[i]) && !('a' <= s[i] <= 'f')
  {
    "#" + X2(c.r) + X2(c.g) + X2(c.b)
  }

  lemma ToHexParts(c: Color)
    ensures ToHex(c) == "#" + X2(c.r) + X2(c.g) + X2(c.b)
  {
  }

  /** Formatting writes no white space, so ParseHex keeps everything after the '#'. */
  lemma HexBodyOfToHex(c: Color)
    ensures HexBody(ToHex(c)) == X2(c.r) + X2(c.g) + X2(c.b)
  {
    var s := ToHex(c);
    assert !IsWhiteSpace(s[0]) && !IsWhiteSpace(s[6]);
    TrimOfTrimmed(s);
    ToHexParts(c);
    assert s[1..] == X2(c.r) + X2(c.g) + X2(c.b);
  }

  lemma PairsOfThree(x: string, y: string, z: string)
    requires |x| == 2 && |y| == 2 && |z| == 2
    ensures (x + y + z)[0..2] == x && (x + y + z)[2..4] == y && (x + y + z)[4..6] == z
  {
    assert (x + y + z)[0..2] == x;
    assert (x + y + z)[2..4] == y;
  }

  lemma PairOfX2(v: Byte)
    ensures HexPairToByte(X2(v)) == Some(v)
  {
  }

  /** Parsing a formatted colour gives back its three channels, made opaque. */
  lemma ParseOfToHex(c: Color)
    ensures ParseHex(Some(ToHex(c))) == Success(FromRgb(c.r, c.g, c.b))
  {
    HexBodyOfToHex(c);
    var x, y, z := X2(c.r), X2(c.g), X2(c.b);
    PairsOfThree(x, y, z);
    PairOfX2(c.r);
    PairOfX2(c.g);
    PairOfX2(c.b);
    assert ParseBody(x + y + z) == Success(FromRgb(c.r, c.g, c.b));
  }

  lemma X2OfDigits(h: char, l: char)
    requires IsHexDigit(h) && IsHexDigit(l)
    ensures 16 * HexValue(h) + HexValue(l) < 256
    ensures X2(16 * HexValue(h) + HexValue(l)) == [UpperHex(h), UpperHex(l)]
  {
    var v := 16 * HexValue(h) + HexValue(l);
    assert v / 16 == HexValue(h) && v % 16 == HexValue(l);
  }

  /** The value of the hex pair body[k..k+2] for a body of hex digits. */
  function PairValue(body: string, k: nat): Byte
    requires k + 2 <= |body| && IsHexDigit(body[k]) && IsHexDigit(body[k + 1])
  {
    16 * HexValue(body[k]) + HexValue(body[k + 1])
  }

  lemma PairOf(body: string, k: nat)
    requires k + 2 <= |body| && IsHexDigit(body[k]) && IsHexDigit(body[k + 1])
    ensures HexPairToByte(body[k..k + 2]) == Some(PairValue(body, k))
  {
    var p := body[k..k + 2];
    assert p[0] == body[k] && p[1] == body[k + 1];
  }

  /** A body of six hex digits parses to the values of its three pairs. */
  lemma ParseSixDigits(s: string, body: string)
    requires body == HexBody(s)
    requires |body| == 6 && forall i :: 0 <= i < 6 ==> IsHexDigit(body[i])
    ensures ParseHex(Some(s)) == Success(FromRgb(PairValue(body, 0), PairValue(body, 2), PairValue(body, 4)))
  {
    assert ParseHex(Some(s)) == ParseBody(body);
    ParseBodyOfDigits(body);
  }

  lemma ParseBodyOfDigits(body: string)
    requires |body| == 6 && forall i :: 0 <= i < 6 ==> IsHexDigit(body[i])
    ensures ParseBody(body) == Success(FromRgb(PairValue(body, 0), PairValue(body, 2), PairValue(body, 4)))
  {
    PairOf(body, 0);
    PairOf(body, 2);
    PairOf(body, 4);
  }

  lemma X2OfPair(body: string, k: nat)
    requires k + 2 <= |body| && IsHexDigit(body[k]) && IsHexDigit(body[k + 1])
    ensures X2(PairValue(body, k)) == [UpperHex(body[k]), UpperHex(body[k + 1])]
  {
    X2OfDigits(body[k], body[k + 1]);
  }

  lemma SevenOfPairs(a: char, b: char, c: char, d: char, e: char, f: char)
    ensures "#" + [a, b] + [c, d] + [e, f] == ['#', a, b, c, d, e, f]
  {
  }

  /** For a body of six hex digits, formatting the parsed colour gives '#' and the body in upper case. */
  lemma ToHexOfParse(s: string, body: string)
    requires body == HexBody(s)
    requires |body| == 6 && forall i :: 0 <= i < 6 ==> IsHexDigit(body[i])
    ensures ParseHex(Some(s)).Success?
    ensures ToHex(ParseHex(Some(s)).value) == ['#', UpperHex(body[0]), UpperHex(body[1]), UpperHex(body[2]),
      UpperHex(body[3]), UpperHex(body[4]), UpperHex(body[5])]
  {
    ParseSixDigits(s, body);
    var c := FromRgb(PairValue(body, 0), PairValue(body, 2), PairValue(body, 4));
    X2OfPair(body, 0);
    X2OfPair(body, 2);
    X2OfPair(body, 4);
    ToHexParts(c);
    SevenOfPairs(UpperHex(body[0]), UpperHex(body[1]), UpperHex(body[2]),
      UpperHex(body[3]), UpperHex(body[4]), UpperHex(body[5]));
  }

  /** The sign quirk of Convert.ToByte: "#+F0000" parses as red 15. */
  lemma PlusSignAccepted()
    ensures ParseHex(Some("#+F0000")) == Success(FromRgb(15, 0, 0))
  {
    TrimOfTrimmed("#+F0000");
    assert HexBody("#+F0000") == "+F0000";
    assert "+F0000"[0..2] == "+F" && "+F0000"[2..4] == "00" && "+F0000"[4..6] == "00";
  }
}
