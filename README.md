# Restaurant directory: colour and price helpers, restaurant search, contact form

This project models three small parts of a server-rendered restaurant directory and proves properties of them in Dafny.

- **Utility library** (`lib/utils.ts`):
  - `formatPrice` renders a price as its amount, one space and a currency label (default `Birr`).
  - `generateLighterColor` turns a `#RRGGBB` theme colour into `rgba(r, g, b, o)`.
  - `generateDarkerColor` takes 20 off each channel, clamped at 0, and prints the result back as `#rrggbb`.
- **Restaurant browser** (`components/restaurant-browser.tsx`): the search box keeps the restaurants whose lower-cased name contains the lower-cased query, in their original order. It shows "No restaurants found." when none is left.
- **Contact form** (`components/contact-form.tsx`): a state of three text fields. `handleChange` overwrites one field. `handleSubmit` clears all three.

Files:

- `wrappers.dfy`: `Option`, standing for JavaScript's `undefined`/`null` and for parsers that can fail.
- `text.dfy` (module `Text`): the JavaScript conversions the helpers use, each paired with a parser or an independent definition. These are `${n}` for integers, `parseInt(_, 16)`, `toString(16)`, `padStart`, ASCII `toLowerCase` and `includes`.
- `utils.dfy` (module `Utils`): `formatPrice`, `generateLighterColor`, `generateDarkerColor`.
- `models.dfy` (module `Models`): the `Restaurant` and `MenuItem` records.
- `restaurant_browser.dfy` (module `RestaurantBrowser`): the search filter and what the browser shows.
- `contact_form.dfy` (module `Contact`): the form state as a class with the two handlers, plus a pure state machine over the same events.

The utility functions and the filter are pure, so they are Dafny functions. The contact form changes its state step by step, so it is a class whose methods state which fields change. Each colour result comes with a parser, and lemmas prove that parsing the output gives back the channels. The filter is connected to an independent subsequence definition and to membership and multiplicity statements.

## Model

| member | source | states |
|---|---|---|
| `Text.NatToDecimal` | lib/utils.ts:26 | the decimal rendering of a non-negative integer is non-empty, all digits and has no leading zero; it is one digit exactly for values below 10 |
| `Text.DecimalRoundTrip` | lib/utils.ts:26 | reading back the decimal rendering of `n` gives `n` |
| `Text.DecimalCanonicalRoundTrip` | lib/utils.ts:26 | every canonical numeral is the rendering of its own value, so rendering is a bijection onto canonical numerals |
| `Text.IntToDecimal` | lib/utils.ts:26 | an integer's rendering starts with `-` exactly when the integer is negative |
| `Text.IntegerRoundTrip` | lib/utils.ts:26 | a signed integer renders as an optional `-` and a canonical numeral other than `-0`, and parses back to itself |
| `Text.IntToDecimalInjective` | lib/utils.ts:26 | distinct integers render differently |
| `Text.HexDigitValue` | lib/utils.ts:46-48 | `parseInt` gives each of `0-9`, `a-f`, `A-F` its hex value below 16, case-insensitively |
| `Text.ParseHex` | lib/utils.ts:46-48 | `parseInt(_, 16)` of a string of `k` hex digits is a value below `16^k` |
| `Text.HexPairValue` | lib/utils.ts:46-48 | a two-hex-digit slice reads as `16 * high + low`, which is below 256 |
| `Text.NatToHex` | lib/utils.ts:76 | `toString(16)` produces lower-case hex digits only, one digit exactly for values below 16 |
| `Text.HexRoundTrip` | lib/utils.ts:76 | `parseInt(n.toString(16), 16) == n` |
| `Text.ParseHexLeadingZero` | lib/utils.ts:76 | a leading `0` pad does not change the value read |
| `Text.PadStart` | lib/utils.ts:76 | `padStart` gives a string as long as the larger of `width` and the input's length, that ends with the input and is filled in front with the pad character |
| `Text.HexByte` | lib/utils.ts:76 | `toString(16).padStart(2, "0")` of a byte prints its high and low lower-case hex digits |
| `Text.HexPairRoundTrip` | lib/utils.ts:46-48 | the high and low hex digit of a byte read back with `parseInt(_, 16)` as the byte |
| `Text.HexByteRoundTrip` | lib/utils.ts:76 | a padded byte is exactly two lower-case hex digits that read back as the byte |
| `Text.ToLower` | components/restaurant-browser.tsx:13 | lower-casing keeps the length and maps each character through the ASCII case map |
| `Text.ToLowerIdempotent` | components/restaurant-browser.tsx:13 | lower-casing twice is lower-casing once |
| `RestaurantBrowser.Matches` | components/restaurant-browser.tsx:13 | a restaurant matches exactly when the lower-cased query occurs at some index of its lower-cased name |
| `Text.Includes` | components/restaurant-browser.tsx:13 | `hay.includes(needle)` holds exactly when `needle` occurs in `hay` at some index |
| `Text.IncludesEmpty` | components/restaurant-browser.tsx:13 | every string includes the empty string |
| `Utils.FormatPrice` | lib/utils.ts:17-26 | on the missing and integral branches the result is an amount, a space and the currency; the amount is a canonical integer numeral that parses to the price, or to 0 when the price is missing |
| `Utils.FormatPriceMissing` | lib/utils.ts:17-22 | a missing price renders as `"0 " + currency`, and as `"0 Birr"` by default |
| `Utils.FormatPriceIntegral` | lib/utils.ts:25-26 | an integral price renders as its decimal text (with a `-` when negative), a space and the currency |
| `Utils.FormatPriceTwelve` | lib/utils.ts:25-26 | `formatPrice(12)` is `"12 Birr"` and `formatPrice(-7, "USD")` is `"-7 USD"` |
| `Utils.FormatPriceInjective` | lib/utils.ts:20-26 | with one currency, two prices render alike only when they are the same amount (missing counts as 0) |
| `Utils.Channels` | lib/utils.ts:46-48 | the red, green and blue channels are the hex-pair values at indices 1-2, 3-4 and 5-6 |
| `Utils.ReadChannelOf` | lib/utils.ts:51 | a printed channel followed by `", "` reads back as that channel and the rest of the text |
| `Utils.RgbaArgumentsRoundTrip` | lib/utils.ts:51 | the printed `r, g, b, o` arguments read back as the colour and its opacity text |
| `Utils.ReadChannelExact` | lib/utils.ts:51 | a channel reads back only from the exact text `${c}, ` prints, so a leading zero is never accepted |
| `Utils.RgbaText` | lib/utils.ts:51 | the template prints `rgba(` and `)` around `r, g, b, o`, and the text reads back as the colour and its opacity text |
| `Utils.ParseRgbaArgumentsExact` | lib/utils.ts:51 | text that reads back as a colour and an opacity is exactly their printed `r, g, b, o` |
| `Utils.ParseRgbaExact` | lib/utils.ts:51 | a string parses as a colour and an opacity only when it is their printed `rgba(...)` text, so the parse-back in `GenerateLighterColor`'s contract fixes its output text |
| `Utils.GenerateLighterColor` | lib/utils.ts:43-51 | the result has the form `rgba(...)`, and parsing it gives the three channels of the input and the opacity that was passed |
| `Utils.LighterColorDefaultOpacity` | lib/utils.ts:43 | without an opacity argument the opacity in the result is `0.1` |
| `Utils.LighterColorBlack` | lib/utils.ts:43-51 | `generateLighterColor("#000000", 0.5)` is `"rgba(0, 0, 0, 0.5)"` |
| `Utils.BlackRgbaText` | lib/utils.ts:51 | the template prints black at opacity 0.5 as `"rgba(0, 0, 0, 0.5)"`: decimal channels separated by `", "` |
| `Utils.LighterColorInjective` | lib/utils.ts:46-51 | two lighter colours are equal exactly when their channels and opacities are equal |
| `Utils.DarkenChannel` | lib/utils.ts:71-73 | a darkened channel is between 0 and the original; it is exactly `c - 20` iff `c >= 20`, and 0 iff `c <= 20` |
| `Utils.Darken` | lib/utils.ts:71-73 | no channel gets brighter, and the colour is left unchanged exactly when it is black |
| `Utils.HexText` | lib/utils.ts:76 | the template prints `#` and, per channel, its high and low lower-case hex digit |
| `Utils.ConcatPairs` | lib/utils.ts:76 | `#` followed by three two-character strings puts their characters at indices 1 to 6 in order |
| `Utils.ChannelsOfDigits` | lib/utils.ts:46-48 | `#` followed by six hex digits is a colour whose channels are the values of the three digit pairs, high digit first |
| `Utils.DigitsOfChannels` | lib/utils.ts:76 | each channel is `16 * high + low` of its own two hex digits |
| `Utils.DigitsRoundTrip` | lib/utils.ts:66-76 | `#` with each channel's two lower-case hex digits is a lower-case colour that reads back as those channels |
| `Utils.HexTextRoundTrip` | lib/utils.ts:76 | the printed colour is `#` and six lower-case hex digits, and reading it back gives the channels it was printed from |
| `Utils.GenerateDarkerColor` | lib/utils.ts:63-76 | the result is `#` and six lower-case hex digits, and the channels read back from it are the input's channels, each darkened by 20 with a floor of 0 |
| `Utils.DarkerColorAllDark` | lib/utils.ts:71-76 | a colour whose channels are all below 20 darkens to `#000000` |
| `Utils.DarkerColorBlackFixedPoint` | lib/utils.ts:71-76 | `#000000` darkens to itself |
| `Utils.DarkerColorAmber` | lib/utils.ts:66-76 | `generateDarkerColor("#D97706")` is `"#c56300"` |
| `Utils.ColorsReadOnlyDigits` | lib/utils.ts:46-68 | two inputs that agree on indices 1 to 6 give the same channels and the same lighter and darker colours; index 0 and everything after index 6 are never read |
| `RestaurantBrowser.FilterRestaurants` | components/restaurant-browser.tsx:12-14 | the result is no longer than the input, and every listed restaurant comes from the input and matches the query |
| `RestaurantBrowser.FilterAppend` | components/restaurant-browser.tsx:12-14 | filtering a concatenation is concatenating the filtered parts |
| `RestaurantBrowser.FilterIsSubsequence` | components/restaurant-browser.tsx:12 | the result is the input with some restaurants deleted, so order is kept and nothing is repeated or invented |
| `RestaurantBrowser.FilterMembership` | components/restaurant-browser.tsx:12-14 | a restaurant is listed iff it is in the input and its lower-cased name contains the lower-cased query |
| `RestaurantBrowser.FilterMultiplicity` | components/restaurant-browser.tsx:12-14 | a matching restaurant occurs in the result as often as in the input; a non-matching one does not occur |
| `RestaurantBrowser.FilterKeepsAllMatching` | components/restaurant-browser.tsx:12-14 | when every restaurant matches, the result is the whole input |
| `RestaurantBrowser.FilterEmptyQuery` | components/restaurant-browser.tsx:12-14 | the empty query lists the whole input |
| `RestaurantBrowser.FilterIdempotent` | components/restaurant-browser.tsx:12-14 | filtering the result again with the same query changes nothing |
| `RestaurantBrowser.FilterCaseInsensitive` | components/restaurant-browser.tsx:13 | two queries that lower-case alike give the same result |
| `RestaurantBrowser.FilterLowerCaseQuery` | components/restaurant-browser.tsx:13 | lower-casing the query beforehand does not change the result |
| `RestaurantBrowser.NoResultsExactly` | components/restaurant-browser.tsx:38-42 | the result is empty exactly when no restaurant matches |
| `RestaurantBrowser.Render` | components/restaurant-browser.tsx:33-43 | one card per filtered restaurant, in filter order, so the cards are the input with the non-matching restaurants deleted; the cards are exactly the matching restaurants, and the "No restaurants found." notice shows exactly when none matches |
| `Contact.FieldOfId` | components/contact-form.tsx:16-22 | an event id names a field exactly when it is one of the three input ids, and it names the field with that id |
| `Contact.FieldIdRoundTrip` | components/contact-form.tsx:41-68 | each field's input id is one of the rendered ids and designates that field |
| `Contact.FormData.With` | components/contact-form.tsx:18-21 | an update sets the chosen field to the value and keeps the other two |
| `Contact.WithLastWins` | components/contact-form.tsx:18-21 | of two changes to the same field the last one wins |
| `Contact.WithCommutes` | components/contact-form.tsx:18-21 | changes to different fields commute |
| `Contact.Step` | components/contact-form.tsx:16-32 | a change sets its field and keeps the others; a submission leaves every field empty |
| `Contact.SubmitIdempotent` | components/contact-form.tsx:24-32 | a submission gives the empty form from any state, so submitting twice equals submitting once |
| `Contact.RunAppend` | components/contact-form.tsx:16-32 | running events and then one more is one more step after the run |
| `Contact.RunShowsLastChange` | components/contact-form.tsx:10-32 | from the initial state, each field holds the last value typed into it since the last submission, or `""` |
| `Contact.ContactForm.constructor` | components/contact-form.tsx:10-14 | the form starts with name, email and message all empty |
| `Contact.ContactForm.HandleChange` | components/contact-form.tsx:16-22 | the input whose id is `id` gets `value`, and the other two fields keep their values |
| `Contact.ContactForm.HandleSubmit` | components/contact-form.tsx:24-32 | the entered data is handed over, and all three fields are reset to `""` whatever they held |

## Left out

- `formatPrice` non-integral branch (`toFixed(2)` then `parseFloat`, lib/utils.ts:28-29): binary floating-point rounding is not modelled. Prices are `Option<SafeInteger>`: `None` is `undefined`/`null`, and `Some(n)` is an integral number.
- `formatPrice` catch branch (lib/utils.ts:31-33): it cannot be reached from the integral and missing branches. The claim that every branch ends with `" " + currency` is proved only for the modelled branches.
- Utils.FormatPrice: integral prices are limited to `Number.MAX_SAFE_INTEGER` in magnitude. Larger doubles lose integer precision, and from `1e21` up JavaScript prints them in exponent notation. Neither is modelled. The value `-0` is not modelled either; JavaScript prints it as `0`. Nor are `Infinity` and `-Infinity`: `Math.floor` leaves them unchanged, so they take the integral branch and print as `"Infinity Birr"` and `"-Infinity Birr"`.
- Opacity in `generateLighterColor`: converting a JavaScript number to text is not modelled. The opacity is the text that gets spliced in, `"0.1"` by default.
- Utils.GenerateLighterColor and Utils.GenerateDarkerColor: both require a string of length at least 7 with hex digits at indices 1 to 6. `Number.parseInt`'s behaviour on other input is not modelled: prefix parsing, `NaN` propagation into the output, signs, whitespace and `0x`. Malformed digits do not throw in the source. The `catch` fallbacks (lib/utils.ts:52-54, 77-79) only fire when the input is not a string, so they are not modelled.
- Text.ToLower: this is the ASCII case map. Full Unicode `toLowerCase`, which can change a string's length, is not modelled.
- `cn` (lib/utils.ts:7-9): it hands class names to external libraries, and there is no logic to state.
- The browser's `query` state and input wiring (components/restaurant-browser.tsx:10 and 19-30): the query is a parameter of the filter. React rendering, the card markup and the search icon are not modelled.
- Contact.ContactForm.HandleChange: it requires the event's id to be one of the three rendered input ids. In the source, any other id would add a fourth property to the state object, but no such input exists.
- `console.log`/`console.error` and `alert` side effects, and `preventDefault`, are not modelled. `HandleSubmit` returns the data that the source logs.
- The browser's form validation (components/contact-form.tsx:41-75): all three inputs are `required` and the email input has `type="email"`, so the browser only submits when every field is non-empty and the email is well formed. The model accepts `Submit` in any state, which includes every case the browser lets through, so the proved properties hold for those too.
- `Models`: these records have no behaviour. `menuCategories` is typed `any[]` in the interface and is carried here with the shape `{name, items}`. `MenuItem.price` is an `int`, because fractional prices are not modelled.
- Database access is not part of this model. That covers the connection cache and configuration in `lib/mongodb.ts`, the listing query on app/page.tsx, and the debug enumeration endpoint. All of it is I/O against an external document store.
- Pages, layout, loading and not-found screens, framework configuration and markup-only cards have no logic to state, so they are not part of this model.
- The restaurant detail page's menu normalisation and its category tab scroll-sync are not part of this model.
