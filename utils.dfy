/**
 * The price formatter and the theme-colour helpers of the utility library.
 *
 * Colours are `#RRGGBB` strings. Both colour helpers read the three hex pairs at
 * indices 1-2, 3-4 and 5-6 and ignore every other character; the lighter variant is
 * an `rgba(r, g, b, o)` string, the darker variant takes 20 off each channel
 * (clamped at 0) and prints it back as `#rrggbb`.
 */
module Utils {
  import opened Wrappers
  import opened Text

  // ---------------------------------------------------------------------------
  // formatPrice
  // ---------------------------------------------------------------------------

  const DefaultCurrency: string := "Birr"

  /** `Number.MAX_SAFE_INTEGER`: up to this magnitude a JavaScript number holds an integer exactly. */
  const MaxSafeInteger: int := 0x1F_FFFF_FFFF_FFFF

  /** The integral prices a JavaScript number represents exactly; all of them print in plain decimal. */
  type SafeInteger = n: int | -MaxSafeInteger <= n <= MaxSafeInteger

  /** The number of characters of a formatted price that precede `" " + currency`. */
  function AmountLength(formatted: string, currency: string): int {
    |formatted| - |currency| - 1
  }

  /**
   * `formatPrice(price, currency)` for a missing (`None`) or integral price: the amount,
   * one space, the currency. A missing price is shown as the amount 0.
   */
  function FormatPrice(price: Option<SafeInteger>, currency: string := DefaultCurrency): (r: string)
    ensures AmountLength(r, currency) > 0
    ensures r[AmountLength(r, currency)..] == " " + currency
    ensures IsCanonicalInteger(r[..AmountLength(r, currency)])
    ensures ParseInteger(r[..AmountLength(r, currency)]) == Some(price.GetOr(0))
  {
    match price
    case None =>
      var r := "0 " + currency;
      assert r[..1] == "0";
      assert ParseDecimal("0") == ParseDecimal([]) * 10 + DigitValue('0');
      r
    case Some(n) =>
      IntegerRoundTrip(n);
      var r := IntToDecimal(n) + " " + currency;
      assert r[..|IntToDecimal(n)|] == IntToDecimal(n);
      r
  }

  lemma FormatPriceMissing(currency: string)
    ensures FormatPrice(None) == "0 Birr"
    ensures FormatPrice(None, currency) == "0 " + currency
  {
  }

  lemma FormatPriceIntegral(n: SafeInteger, currency: string)
    ensures FormatPrice(Some(n), currency) == IntToDecimal(n) + " " + currency
    ensures n < 0 ==> FormatPrice(Some(n), currency)[0] == '-'
  {
  }

  lemma FormatPriceTwelve()
    ensures FormatPrice(Some(12)) == "12 Birr"
    ensures FormatPrice(Some(-7), "USD") == "-7 USD"
  {
    assert NatToDecimal(12) == NatToDecimal(1) + [DigitChar(2)];
  }

  /** Two prices with the same currency render alike only when they denote the same amount. */
  lemma FormatPriceInjective(p: Option<SafeInteger>, q: Option<SafeInteger>, currency: string)
    requires FormatPrice(p, currency) == FormatPrice(q, currency)
    ensures p.GetOr(0) == q.GetOr(0)
  {
  }

  // ---------------------------------------------------------------------------
  // Colour channels
  // ---------------------------------------------------------------------------

  type Byte = n: nat | n < 256

  datatype Rgb = Rgb(red: Byte, green: Byte, blue: Byte)

  /** The input the colour helpers are modelled on: hex digits at indices 1 to 6, anything elsewhere. */
  predicate IsHexColor(hex: string) {
    && |hex| >= 7
    && IsHexDigit(hex[1]) && IsHexDigit(hex[2])
    && IsHexDigit(hex[3]) && IsHexDigit(hex[4])
    && IsHexDigit(hex[5]) && IsHexDigit(hex[6])
  }

  /** The form `generateDarkerColor` prints: `#` and six lower-case hex digits. */
  predicate IsLowerHexColor(s: string) {
    && |s| == 7 && s[0] == '#'
    && IsLowerHexDigit(s[1]) && IsLowerHexDigit(s[2])
    && IsLowerHexDigit(s[3]) && IsLowerHexDigit(s[4])
    && IsLowerHexDigit(s[5]) && IsLowerHexDigit(s[6])
  }

  /** The three `Number.parseInt(hex.slice(k, k + 2), 16)` channel reads. */
  function Channels(hex: string): (c: Rgb)
    requires IsHexColor(hex)
    ensures c.red == 16 * HexDigitValue(hex[1]) + HexDigitValue(hex[2])
    ensures c.green == 16 * HexDigitValue(hex[3]) + HexDigitValue(hex[4])
    ensures c.blue == 16 * HexDigitValue(hex[5]) + HexDigitValue(hex[6])
  {
    assert hex[1..3] == [hex[1], hex[2]] && hex[3..5] == [hex[3], hex[4]] && hex[5..7] == [hex[5], hex[6]];
    HexPairValue(hex[1..3]);
    HexPairValue(hex[3..5]);
    HexPairValue(hex[5..7]);
    Rgb(ParseHex(hex[1..3]), ParseHex(hex[3..5]), ParseHex(hex[5..7]))
  }

  // ---------------------------------------------------------------------------
  // generateLighterColor
  // ---------------------------------------------------------------------------

  /** Length of the longest prefix of `s` made of decimal digits. */
  function DigitRun(s: string): (k: nat)
    ensures k <= |s| && AllDecimal(s[..k])
    ensures k < |s| ==> !IsDecimalDigit(s[k])
    decreases |s|
  {
    if s == [] || !IsDecimalDigit(s[0]) then 0
    else
      var k := 1 + DigitRun(s[1..]);
      assert s[..k] == [s[0]] + s[1..][..k - 1];
      k
  }

  /** Reads one channel written as a canonical decimal numeral followed by `", "`. */
  function ReadChannel(s: string): Option<(Byte, string)> {
    var k := DigitRun(s);
    if 0 < k && IsCanonicalDecimal(s[..k]) && k + 2 <= |s| && s[k..k + 2] == ", " && ParseDecimal(s[..k]) < 256 then
      Some((ParseDecimal(s[..k]) as Byte, s[k + 2..]))
    else
      None
  }

  /** Reads `r, g, b, o` back into its channels and its opacity text. */
  function ParseRgbaArguments(s: string): Option<(Rgb, string)> {
    match ReadChannel(s)
    case None => None
    case Some((r, afterRed)) =>
      match ReadChannel(afterRed)
      case None => None
      case Some((g, afterGreen)) =>
        match ReadChannel(afterGreen)
        case None => None
        case Some((b, opacity)) => Some((Rgb(r, g, b), opacity))
  }

  /** Reads `rgba(r, g, b, o)` back into its channels and its opacity text. */
  function ParseRgba(s: string): Option<(Rgb, string)> {
    if |s| >= 6 && s[..5] == "rgba(" && s[|s| - 1] == ')' then ParseRgbaArguments(s[5..|s| - 1]) else None
  }

  lemma ReadChannelOf(n: Byte, rest: string)
    ensures ReadChannel(NatToDecimal(n) + ", " + rest) == Some((n, rest))
  {
    var d := NatToDecimal(n);
    var s := d + ", " + rest;
    assert s[..|d|] == d;
    assert s[|d|] == ',';
    assert DigitRun(s) == |d|;
    assert s[|d|..|d| + 2] == ", ";
    assert s[|d| + 2..] == rest;
    DecimalRoundTrip(n);
  }

  /** A channel is read only from the very text it is printed as. */
  lemma ReadChannelExact(s: string, n: Byte, rest: string)
    requires ReadChannel(s) == Some((n, rest))
    ensures s == NatToDecimal(n) + ", " + rest
  {
    var k := DigitRun(s);
    DecimalCanonicalRoundTrip(s[..k]);
    assert s == s[..k] + s[k..k + 2] + s[k + 2..];
  }

  /** The `r, g, b, o` text of a colour at an opacity. */
  function RgbaArguments(c: Rgb, opacity: string): string {
    NatToDecimal(c.red) + ", " + (NatToDecimal(c.green) + ", " + (NatToDecimal(c.blue) + ", " + opacity))
  }

  lemma RgbaArgumentsRoundTrip(c: Rgb, opacity: string)
    ensures ParseRgbaArguments(RgbaArguments(c, opacity)) == Some((c, opacity))
  {
    var afterGreen := NatToDecimal(c.blue) + ", " + opacity;
    var afterRed := NatToDecimal(c.green) + ", " + afterGreen;
    ReadChannelOf(c.red, afterRed);
    ReadChannelOf(c.green, afterGreen);
    ReadChannelOf(c.blue, opacity);
  }

  /** The `rgba(r, g, b, o)` text of a colour at an opacity, which reads back as that colour and opacity. */
  function RgbaText(c: Rgb, opacity: string): (s: string)
    ensures |s| >= 6 && s[..5] == "rgba(" && s[|s| - 1] == ')'
    ensures ParseRgba(s) == Some((c, opacity))
  {
    var s := "rgba(" + RgbaArguments(c, opacity) + ")";
    assert s[..5] == "rgba(" && s[5..|s| - 1] == RgbaArguments(c, opacity);
    RgbaArgumentsRoundTrip(c, opacity);
    s
  }

  lemma ParseRgbaArgumentsExact(args: string, c: Rgb, opacity: string)
    requires ParseRgbaArguments(args) == Some((c, opacity))
    ensures args == RgbaArguments(c, opacity)
  {
    var (red, afterRed) := ReadChannel(args).value;
    var (green, afterGreen) := ReadChannel(afterRed).value;
    ReadChannelExact(args, red, afterRed);
    ReadChannelExact(afterRed, green, afterGreen);
    ReadChannelExact(afterGreen, c.blue, opacity);
  }

  /** A string that starts with `rgba(` and ends with `)` is those two around what lies between. */
  lemma RgbaWrapping(s: string)
    requires |s| >= 6 && s[..5] == "rgba(" && s[|s| - 1] == ')'
    ensures s == "rgba(" + s[5..|s| - 1] + ")"
  {
    assert s == s[..5] + s[5..|s| - 1] + [s[|s| - 1]];
  }

  /** The parser is exact: a string reads as a colour and an opacity only when it is their printed text. */
  lemma ParseRgbaExact(s: string, c: Rgb, opacity: string)
    requires ParseRgba(s) == Some((c, opacity))
    ensures s == RgbaText(c, opacity)
  {
    assert |s| >= 6 && s[..5] == "rgba(" && s[|s| - 1] == ')';
    RgbaWrapping(s);
    ParseRgbaArgumentsExact(s[5..|s| - 1], c, opacity);
  }

  /**
   * `generateLighterColor(hex, opacity)`: the channels of `hex` at the given opacity.
   * The opacity is a JavaScript number printed into the string; here it is that printed text.
   */
  function GenerateLighterColor(hex: string, opacity: string := "0.1"): (r: string)
    requires IsHexColor(hex)
    ensures |r| >= 6 && r[..5] == "rgba(" && r[|r| - 1] == ')'
    ensures ParseRgba(r) == Some((Channels(hex), opacity))
  {
    RgbaText(Channels(hex), opacity)
  }

  lemma LighterColorDefaultOpacity(hex: string)
    requires IsHexColor(hex)
    ensures ParseRgba(GenerateLighterColor(hex)) == Some((Channels(hex), "0.1"))
  {
  }

  lemma LighterColorBlack()
    ensures GenerateLighterColor("#000000", "0.5") == "rgba(0, 0, 0, 0.5)"
  {
    assert HexDigitValue('0') == 0;
    assert Channels("#000000") == Rgb(0, 0, 0);
    BlackRgbaText();
  }

  lemma BlackRgbaText()
    ensures RgbaText(Rgb(0, 0, 0), "0.5") == "rgba(0, 0, 0, 0.5)"
  {
    assert NatToDecimal(0) == "0";
    var args := RgbaArguments(Rgb(0, 0, 0), "0.5");
    assert args == "0, 0, 0, 0.5";
    var s := "rgba(" + args + ")";
    assert |s| == 18;
    assert forall i :: 0 <= i < 18 ==> s[i] == "rgba(0, 0, 0, 0.5)"[i];
  }

  /** Two lighter colours coincide exactly when their channels and opacity do. */
  lemma LighterColorInjective(h1: string, o1: string, h2: string, o2: string)
    requires IsHexColor(h1) && IsHexColor(h2)
    ensures GenerateLighterColor(h1, o1) == GenerateLighterColor(h2, o2) <==> Channels(h1) == Channels(h2) && o1 == o2
  {
  }

  // ---------------------------------------------------------------------------
  // generateDarkerColor
  // ---------------------------------------------------------------------------

  /** `Math.max(0, c - 20)`. */
  function DarkenChannel(c: Byte): (d: Byte)
    ensures 0 <= d <= c
    ensures d == c - 20 <==> c >= 20
    ensures c <= 20 <==> d == 0
  {
    var x := c - 20;
    if x > 0 then x else 0
  }

  /** The three darkened channels: none gets brighter, and only black is left as it was. */
  function Darken(c: Rgb): (d: Rgb)
    ensures d.red <= c.red && d.green <= c.green && d.blue <= c.blue
    ensures d == c <==> c == Rgb(0, 0, 0)
  {
    Rgb(DarkenChannel(c.red), DarkenChannel(c.green), DarkenChannel(c.blue))
  }

  /** Where the pieces of `#` + `r` + `g` + `b` land, for three two-character strings. */
  lemma ConcatPairs(r: string, g: string, b: string)
    requires |r| == 2 && |g| == 2 && |b| == 2
    ensures "#" + r + g + b == ['#', r[0], r[1], g[0], g[1], b[0], b[1]]
  {
  }

  /**
   * `#` followed by each channel as `toString(16).padStart(2, "0")`: the printed colour
   * is `#` and the high and low lower-case hex digit of each channel.
   */
  function HexText(c: Rgb): (s: string)
    ensures s == ['#', LowerHexChar(c.red / 16), LowerHexChar(c.red % 16),
                       LowerHexChar(c.green / 16), LowerHexChar(c.green % 16),
                       LowerHexChar(c.blue / 16), LowerHexChar(c.blue % 16)]
  {
    ConcatPairs(HexByte(c.red), HexByte(c.green), HexByte(c.blue));
    "#" + HexByte(c.red) + HexByte(c.green) + HexByte(c.blue)
  }

  /** `#` and six hex digits form a colour whose channels are the values of the three digit pairs. */
  lemma ChannelsOfDigits(h1: char, l1: char, h2: char, l2: char, h3: char, l3: char)
    requires IsHexDigit(h1) && IsHexDigit(l1) && IsHexDigit(h2) && IsHexDigit(l2) && IsHexDigit(h3) && IsHexDigit(l3)
    ensures IsHexColor(['#', h1, l1, h2, l2, h3, l3])
    ensures (IsLowerHexDigit(h1) && IsLowerHexDigit(l1) && IsLowerHexDigit(h2) && IsLowerHexDigit(l2) &&
             IsLowerHexDigit(h3) && IsLowerHexDigit(l3)) ==> IsLowerHexColor(['#', h1, l1, h2, l2, h3, l3])
    ensures Channels(['#', h1, l1, h2, l2, h3, l3]) ==
            Rgb(16 * HexDigitValue(h1) + HexDigitValue(l1),
                16 * HexDigitValue(h2) + HexDigitValue(l2),
                16 * HexDigitValue(h3) + HexDigitValue(l3))
  {
  }

  /** Each channel is recovered from its high and its low hex digit. */
  lemma DigitsOfChannels(c: Rgb)
    ensures c == Rgb(16 * HexDigitValue(LowerHexChar(c.red / 16)) + HexDigitValue(LowerHexChar(c.red % 16)),
                     16 * HexDigitValue(LowerHexChar(c.green / 16)) + HexDigitValue(LowerHexChar(c.green % 16)),
                     16 * HexDigitValue(LowerHexChar(c.blue / 16)) + HexDigitValue(LowerHexChar(c.blue % 16)))
  {
    assert c.red == 16 * (c.red / 16) + c.red % 16;
    assert c.green == 16 * (c.green / 16) + c.green % 16;
    assert c.blue == 16 * (c.blue / 16) + c.blue % 16;
  }

  /** `#` and the high and low lower-case hex digit of each channel is a colour that reads back as those channels. */
  lemma DigitsRoundTrip(s: string, c: Rgb)
    requires s == ['#', LowerHexChar(c.red / 16), LowerHexChar(c.red % 16),
                        LowerHexChar(c.green / 16), LowerHexChar(c.green % 16),
                        LowerHexChar(c.blue / 16), LowerHexChar(c.blue % 16)]
    ensures IsLowerHexColor(s)
    ensures IsHexColor(s) && Channels(s) == c
  {
    ChannelsOfDigits(s[1], s[2], s[3], s[4], s[5], s[6]);
    DigitsOfChannels(c);
  }

  /** The printed colour has the printed form, and reading it back gives the channels it was printed from. */
  lemma HexTextRoundTrip(c: Rgb)
    ensures IsLowerHexColor(HexText(c))
    ensures IsHexColor(HexText(c)) && Channels(HexText(c)) == c
  {
    DigitsRoundTrip(HexText(c), c);
  }

  /**
   * `generateDarkerColor(hex)`: `#` and each darkened channel as two lower-case hex digits;
   * read back, it yields the darkened channels.
   */
  function GenerateDarkerColor(hex: string): (r: string)
    requires IsHexColor(hex)
    ensures IsLowerHexColor(r)
    ensures IsHexColor(r) && Channels(r) == Darken(Channels(hex))
  {
    HexTextRoundTrip(Darken(Channels(hex)));
    HexText(Darken(Channels(hex)))
  }

  lemma DarkerColorAllDark(hex: string)
    requires IsHexColor(hex)
    requires Channels(hex).red < 20 && Channels(hex).green < 20 && Channels(hex).blue < 20
    ensures GenerateDarkerColor(hex) == "#000000"
  {
    assert HexText(Rgb(0, 0, 0)) == ['#', '0', '0', '0', '0', '0', '0'];
  }

  lemma DarkerColorBlackFixedPoint()
    ensures IsHexColor("#000000") && GenerateDarkerColor("#000000") == "#000000"
  {
    DarkerColorAllDark("#000000");
  }

  lemma DarkerColorAmber()
    ensures GenerateDarkerColor("#D97706") == "#c56300"
  {
    assert Channels("#D97706") == Rgb(217, 119, 6);
    assert Darken(Rgb(217, 119, 6)) == Rgb(197, 99, 0);
    assert HexText(Rgb(197, 99, 0)) == ['#', 'c', '5', '6', '3', '0', '0'];
  }

  // ---------------------------------------------------------------------------
  // What the colour helpers read
  // ---------------------------------------------------------------------------

  /**
   * Only indices 1 to 6 matter: index 0 is never looked at and the characters after
   * index 6 are ignored.
   */
  lemma ColorsReadOnlyDigits(h1: string, h2: string, opacity: string)
    requires IsHexColor(h1) && |h2| >= 7 && h1[1..7] == h2[1..7]
    ensures IsHexColor(h2)
    ensures Channels(h1) == Channels(h2)
    ensures GenerateLighterColor(h1, opacity) == GenerateLighterColor(h2, opacity)
    ensures GenerateDarkerColor(h1) == GenerateDarkerColor(h2)
  {
    assert forall i :: 1 <= i < 7 ==> h1[i] == h1[1..7][i - 1] == h2[1..7][i - 1] == h2[i];
    assert h1[1..3] == h2[1..3] && h1[3..5] == h2[3..5] && h1[5..7] == h2[5..7];
  }
}
