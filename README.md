# Portfolio page converter and option P&L calculator, modelled in Dafny

The repository holds two small programs.

- The portfolio page script (`portfolio/script.js`) has three parts:
  - a text-to-binary converter, which writes every UTF-16 code unit of a text in base 2, padded to at least eight digits, with the tokens separated by single spaces;
  - its inverse, which splits on spaces, reads each piece with `parseInt(piece, 2)` and turns the number back into a character with `String.fromCharCode`;
  - a keyword lookup, which lower-cases a function name and shows one of three projects or a fallback message.
- The Black-Scholes calculator (`black_scholes_app.py`) has two parts modelled here:
  - `calculate_pnl`, which gives the net result of a call and of a put at every hypothetical price of the underlying;
  - the input check that decides whether the calculator prices the option at all, and the partial operations of d1 behind it: the division S / K, the logarithm, the square root of T, and the division by `sigma * sqrt(T)`, which the check fails to protect.

The project has four modules, one file each.

- `TextBinary` (`text_binary.dfy`):
  - `Encode` and `Decode` are the specification functions.
  - JavaScript's `parseInt(_, 2)`, `trim`, `split(' ')` and `String.fromCharCode` are modelled as the ECMAScript standard defines them.
  - `ConvertTextToBinary` and `ConvertBinaryToText` are methods. They keep the accumulating loops of the page script and are proved equal to the specification functions.
  - The round trip and the shape of the encoding are proved as lemmas.
  - `Encode`, `Trim`, `ParseBinary` and `DecodePiece` have no contract of their own. What they compute is stated by the lemmas about them in the table: `EncodeShape` and `RoundTrip`, `TrimRemovesOnlyWhitespace`, `ParseLayoutValue` and `ParseLayoutExists`, and the `Decode…` lemmas.
- `ProjectLookup` (`project_lookup.dfy`): the keyword lookup as a function, with its case analysis and case insensitivity.
- `OptionPnl` (`option_pnl.dfy`): `calculate_pnl` over sequences of reals, the contract that determines its result, and its monotonicity and premium-shift properties.
- `PricingGuard` (`pricing_guard.dfy`):
  - the input check as written (`AdmitsPricing`) and as evidently intended (`ValidForPricing`);
  - d1's denominator and its division, with Python's `ZeroDivisionError` made explicit;
  - the lemmas in the table about `AdmitsPricing`, which is line 47's condition itself.

## Model

| member | source | states |
|---|---|---|
| TextBinary.ToBase2 | portfolio/script.js:6 | `Number.prototype.toString(2)` of a code unit: at least one digit, binary digits only, no leading zero unless the number is 0, and the digits' value is the number |
| TextBinary.ToBase2Length | portfolio/script.js:6 | the base-2 numeral of n fits in k digits exactly when n < 2^k |
| TextBinary.PadStart | portfolio/script.js:6 | `padStart(width, fill)` pads up to the width and never truncates: the length is the larger of the two |
| TextBinary.PadStartContent | portfolio/script.js:6 | the padded string ends with the original string, and every character before it is the fill |
| TextBinary.PaddedNumeral | portfolio/script.js:6 | left-padding a binary numeral with '0' keeps it binary and keeps its value |
| TextBinary.Token | portfolio/script.js:6 | the token of a code unit is made of binary digits, is at least 8 long, is exactly 8 long iff the code unit is below 256, and has the code unit as its value; from 256 on it starts with '1', so it is then the bare base-2 numeral |
| TextBinary.Split | portfolio/script.js:14 | `split(' ')` gives one piece more than there are spaces, and no piece holds a space |
| TextBinary.JoinSplit | portfolio/script.js:14 | joining the pieces of `split(' ')` with single spaces gives the string back |
| TextBinary.SplitJoin | portfolio/script.js:14 | splitting a space-joined list of space-free pieces gives the list back |
| TextBinary.JoinSpacedShape | portfolio/script.js:5-8 | joining non-empty space-free tokens gives a string with no space at either end and no two spaces in a row |
| TextBinary.TrimStart | portfolio/script.js:8 | the part of `trim` that removes leading white space: the result is no longer and does not start with white space |
| TextBinary.TrimEnd | portfolio/script.js:8 | the part of `trim` that removes trailing white space: the result is no longer and does not end with white space |
| TextBinary.TrimStartRemovesWhitespace | portfolio/script.js:8 | what `trim` removes at the front is white space only: the result is the rest of the string, unchanged |
| TextBinary.TrimEndRemovesWhitespace | portfolio/script.js:8 | what `trim` removes at the back is white space only: the result is the start of the string, unchanged |
| TextBinary.TrimRemovesOnlyWhitespace | portfolio/script.js:8 | `trim` returns one contiguous part of the string, with only white space before and after it, and the part neither starts nor ends with white space |
| TextBinary.TrimDropsTrailingSpace | portfolio/script.js:8 | `trim` removes exactly the trailing space the loop leaves after the last token, when the string is digits at both ends |
| TextBinary.DigitPrefixLength | portfolio/script.js:17 | the digits `parseInt(_, 2)` reads are the longest prefix of binary digits |
| TextBinary.ParseLayoutValue | portfolio/script.js:17 | `parseInt(_, 2)` of white space, an optional '+' or '-', a run of binary digits and a rest that does not continue the run: NaN when the run is empty, otherwise the run's value, negated after '-' |
| TextBinary.ParseLayoutExists | portfolio/script.js:17 | every string has such a layout, so the rule above decides `parseInt(_, 2)` on every input; it gives NaN exactly when no binary digit follows the white space and the sign |
| TextBinary.FromCharCode | portfolio/script.js:17 | `String.fromCharCode` gives U+0000 for NaN and otherwise the code unit congruent to the integer modulo 2^16 |
| TextBinary.DecodeDigits | portfolio/script.js:17 | a piece made only of binary digits decodes to its value modulo 2^16 |
| TextBinary.DecodeNegatedDigits | portfolio/script.js:17 | the same digits after a '-' decode to the negation of that code unit modulo 2^16 |
| TextBinary.DecodeWithoutDigits | portfolio/script.js:17 | the empty piece, "2" and "- 1" have no digit where `parseInt` looks for one, and decode to U+0000 |
| TextBinary.DecodeMinusOne | portfolio/script.js:17 | "-1" decodes to U+FFFF |
| TextBinary.DecodeSignedWithRest | portfolio/script.js:17 | "  +101x" decodes to 5: leading white space and '+' are read past, and the trailing 'x' ends the digits |
| TextBinary.ParseDigits | portfolio/script.js:17 | `parseInt(t, 2)` of a non-empty string of binary digits is the value of those digits |
| TextBinary.TokenParses | portfolio/script.js:6-17 | `String.fromCharCode(parseInt(token, 2))` gives back the code unit the token encodes |
| TextBinary.Tokens | portfolio/script.js:5-6 | one token per code unit of the text |
| TextBinary.Decode | portfolio/script.js:12-20 | the decoded text has one code unit per piece, that is the number of spaces plus one |
| TextBinary.ConvertTextToBinary | portfolio/script.js:2-9 | the loop that appends each token and a space, followed by `trim`, computes `Encode(text)` |
| TextBinary.ConvertBinaryToText | portfolio/script.js:12-20 | the `forEach` loop that appends one character per piece computes `Decode(binary)` |
| TextBinary.EncodeShape | portfolio/script.js:5-8 | the encoding is empty iff the text is; it splits back into exactly the tokens, one per code unit; it has one space fewer than the text has code units, and no space at either end or twice in a row; every token is binary, at least 8 long, 8 long iff below 256, and has the code unit's value |
| TextBinary.RoundTrip | portfolio/script.js:2-20 | decoding the encoding of a non-empty text gives the text back |
| TextBinary.EmptyTextDoesNotRoundTrip | portfolio/script.js:4-17 | the empty text encodes to the empty string, which decodes to a single U+0000 |
| TextBinary.RoundTripIffNonEmpty | portfolio/script.js:2-20 | the round trip holds exactly for the non-empty texts |
| TextBinary.EncodeDecode | portfolio/script.js:2-20 | a binary string whose every piece is a token as the encoder writes it is re-encoded to itself after decoding |
| ProjectLookup.LowerChar | portfolio/script.js:25 | `toLowerCase` on one character: an ASCII capital becomes its small letter (code + 32), every other character is kept, and no capital remains |
| ProjectLookup.ToLower | portfolio/script.js:25 | lower-casing keeps the length, lower-cases each character in place, and leaves no ASCII capital |
| ProjectLookup.ProjectFor | portfolio/script.js:25-36 | after lower-casing, "print", "type" and "string" and only they give projects 1, 2 and 3, and every other keyword gives the fallback message |
| ProjectLookup.ToLowerIdempotent | portfolio/script.js:25 | lower-casing twice is the same as lower-casing once |
| ProjectLookup.ProjectForIgnoresCase | portfolio/script.js:25-36 | a keyword and its lower-case form give the same project |
| ProjectLookup.ProjectForExamples | portfolio/script.js:25-36 | "PRINT", "Type" and "StRiNg" find their projects; "printf" and the empty keyword get the fallback |
| OptionPnl.Max0 | black_scholes_app.py:30-31 | `np.maximum(0, x)` is at least 0 and at least x, and is one of the two |
| OptionPnl.CallPnl | black_scholes_app.py:30 | the call result is at least -premium, equals -premium exactly when the price is at most the strike, and is price - strike - premium otherwise |
| OptionPnl.PutPnl | black_scholes_app.py:31 | the put result is at least -premium, equals -premium exactly when the price is at least the strike, and is strike - price - premium otherwise |
| OptionPnl.CalculatePnl | black_scholes_app.py:29-32 | both returned arrays have one entry per price |
| OptionPnl.CalculatePnlMeetsContract | black_scholes_app.py:29-32 | at every price the call result exceeds the put result by price - strike (the premium cancels), both are at least -premium, and each equals -premium exactly when its option expires worthless |
| OptionPnl.PnlDeterminedByContract | black_scholes_app.py:29-32 | any pair of arrays meeting that contract is the result of `calculate_pnl`, so the contract states the whole behaviour |
| OptionPnl.PnlIsElementwise | black_scholes_app.py:29-32 | entry i depends only on the price at i, the strike and the premium |
| OptionPnl.PremiumShiftsPnl | black_scholes_app.py:30-31 | paying d more premium lowers every call and put entry by exactly d |
| OptionPnl.PnlMonotone | black_scholes_app.py:30-31 | over ascending prices the call results never fall and the put results never rise |
| OptionPnl.PnlExample | black_scholes_app.py:30-31 | prices 50, 100, 150 with strike 100 and premium 10 give calls -10, -10, 40 and puts 40, -10, -10 |
| PricingGuard.Divide | black_scholes_app.py:8 | Python's float division raises `ZeroDivisionError` exactly when the divisor is zero, and otherwise gives the quotient |
| PricingGuard.D1Denominator | black_scholes_app.py:8 | `sigma * math.sqrt(T)` is zero exactly when sigma or sqrt(T) is zero |
| PricingGuard.D1 | black_scholes_app.py:8 | d1 raises `ZeroDivisionError` exactly when sigma or sqrt(T) is zero |
| PricingGuard.AdmittedInputsKeepLogAndSqrtDefined | black_scholes_app.py:47 | under the check, S / K divides by a non-zero strike, the logarithm's argument is positive and sqrt(T) is positive |
| PricingGuard.AdmittedD1FailsIffZeroVolatility | black_scholes_app.py:8 | for an input the check (`AdmitsPricing`) admits, d1 raises `ZeroDivisionError` exactly when the volatility is zero |
| PricingGuard.GuardAdmitsZeroDivision | black_scholes_app.py:47 | the check lets through S = K = 100, T = 1, r = 0.05, sigma = 0, on which d1 divides by zero |
| PricingGuard.ValidIsAdmittedWithoutZeroVolatility | black_scholes_app.py:47 | the corrected check is the written one minus the zero volatility |
| PricingGuard.ValidInputsHaveD1 | black_scholes_app.py:8 | under the corrected check, d1's denominator is positive and d1 is a number |

## Left out

- `black_scholes` and `calculate_greeks` (black_scholes_app.py:7-27) are not modelled beyond d1's denominator. Their values need `math.log`, `math.exp`, `math.sqrt` and scipy's normal distribution, which are floating-point library code.
- `math.log(S / K)` and `math.sqrt(T)` are parameters: a logarithm value, and a square-root witness `root` with `root * root == T`.
- The Streamlit and Plotly page is not modelled (black_scholes_app.py:34-179). That covers the widgets, the HTML, the charts, the `np.linspace` price sweep at line 127, and the `call_price` at line 125, which is undefined when the check fails.
- float64 arithmetic is modelled as exact `real` arithmetic. Rounding, infinities and NaN inputs to `calculate_pnl` are not modelled.
- The DOM reads and writes of the page script (`getElementById`, `.value`, `.textContent`, the event listener and `preventDefault`) are left out. The conversions and the lookup take and return strings.
- The encoder's input is a sequence of UTF-16 code units (0 to 0xFFFF), so lone surrogates are included. A character outside the Basic Multilingual Plane is its two surrogate code units, exactly as `text.length` and `text[i]` see it.
- The decoder's input is a Dafny `string`, which cannot hold a lone surrogate. The decoder only compares its characters with digits, signs, white space and the space.
- TextBinary.ParseBinary: exact integers replace float64. For a binary token of more than 53 significant digits, JavaScript's `parseInt` rounds and the model does not. The result then differs only in the code unit chosen modulo 2^16.
- ProjectLookup.LowerChar: lower-cases ASCII letters only, not the full Unicode case mapping of `toLowerCase`. The lookup result is the same for every keyword, for two reasons:
  - no other character lower-cases to one of the ASCII letters in "print", "type" or "string" (the Kelvin sign becomes 'k', which none of them contains);
  - a character that lower-cases to several code units gives a string that cannot equal a keyword of the same length.

  This argument is not proved in Dafny.
- TextBinary.PadStart: its own contract states only the length. The content is stated by `PadStartContent`.
- TextBinary.TrimStart and TextBinary.TrimEnd: their own contracts state only the length and the end left without white space. That only white space is removed is stated by `TrimStartRemovesWhitespace`, `TrimEndRemovesWhitespace` and `TrimRemovesOnlyWhitespace`.
- OptionPnl.CalculatePnl: its own contract states only the lengths. What it computes is stated by `CalculatePnlMeetsContract`, and `PnlDeterminedByContract` shows that this fixes the result.

## Findings

| source | as written | input that shows it | evidently intended | confidence | as-written member | corrected member |
|---|---|---|---|---|---|---|
| black_scholes_app.py:47 | the check admits `sigma >= 0`, so a zero volatility reaches `black_scholes`, where line 8 divides by `sigma * math.sqrt(T)` | S = 100, K = 100, T = 1, r = 0.05, sigma = 0: d1 divides by 0.0 and Python raises `ZeroDivisionError` | `sigma > 0`, under which d1's denominator is positive | not executed | PricingGuard.GuardAdmitsZeroDivision | PricingGuard.ValidInputsHaveD1 |
