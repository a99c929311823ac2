# ColorPop hex-colour decoder and search-screen state, in Dafny

ColorPop is a one-screen SwiftUI app: the user types a word, the app fetches
colour palettes from a search API, shows each palette as a row of tappable
swatches, and paints each swatch with `Color.init(hex:)`. This project models
the two pieces of that app that carry logic:

- **The hex-colour decoder** `Color.init(hex:)`. The input is trimmed of
  non-alphanumeric characters at both ends (module `Trimming`), a leading
  hexadecimal number is scanned from what is left into an unsigned 64-bit
  value (module `HexScanner`), and the red, green and blue bytes are cut from
  bits 16-23, 8-15 and 0-7 of that value (module `HexColor`). A digit run
  too large for 64 bits reads as the largest 64-bit value, as Foundation's
  scanner documents for overflow. When no digit can
  be scanned the colour is a fixed gray, modelled as `None`. Channels are the
  integer bytes 0..255 that the app divides by 255.
- **The screen state** (`searchText`, `palettes`, `selectedColor`) and its
  transitions (module `PaletteScreen`): editing the search field, a fetch
  completing with palettes or with an error, and tapping a swatch. Sequences
  of these events are folded by `Run`, and lemmas say which event last
  determined each field.

`Wrappers` holds the `Option` type shared by the modules.

The decoder trims only the two ends of the string. A character such as `-`
between two digits is kept, and it stops the digit scan there
(`TrimKeepsInterior`).

## Model

| member | source | states |
|---|---|---|
| Trimming.Trim | ColorPop/ColorPop/ContentView.swift:142 | the trimmed string is a contiguous slice of the input with no alphanumeric character outside it, and when non-empty it starts and ends with an alphanumeric character |
| Trimming.TrimCut | ColorPop/ColorPop/ContentView.swift:142 | the cut points of the trim satisfy the trim bounds: only junk before and after, alphanumeric at both ends of what is kept |
| Trimming.TrimUnique | ColorPop/ColorPop/ContentView.swift:142 | any cut satisfying the trim bounds is exactly the trim, so the trim is fully determined by that characterisation |
| Trimming.TrimIgnoresJunkEnds | ColorPop/ColorPop/ContentView.swift:142 | adding non-alphanumeric characters at either end does not change the trimmed string |
| Trimming.TrimKeepsInterior | ColorPop/ColorPop/ContentView.swift:142 | a string that starts and ends with an alphanumeric character is left intact, interior punctuation included |
| Trimming.TrimIdempotent | ColorPop/ColorPop/ContentView.swift:142 | trimming an already trimmed string changes nothing |
| HexScanner.ScanHex | ColorPop/ColorPop/ContentView.swift:143-146 | the digit-by-digit scan with a saturating 64-bit accumulator succeeds exactly when a hex digit follows the leading whitespace, and then yields the value of the longest digit run, capped at 2^64-1 |
| HexScanner.ScanHexInt64 | ColorPop/ColorPop/ContentView.swift:143-146 | the scan fails if and only if no hex digit follows the leading whitespace |
| HexScanner.HexRunLength | ColorPop/ColorPop/ContentView.swift:146 | the scanner reads the longest prefix made of hexadecimal digits: all of it digits, and the next character (if any) not a digit |
| HexColor.Channels | ColorPop/ColorPop/ContentView.swift:147-149 | the three bytes cut from the value by shift-and-mask, packed back as red*65536 + green*256 + blue, equal the value's low 24 bits |
| HexColor.ChannelsLow24 | ColorPop/ColorPop/ContentView.swift:147-149 | two scanned values give the same channels if and only if they agree modulo 2^24 |
| HexColor.ChannelsOfPacked | ColorPop/ColorPop/ContentView.swift:147-149 | cutting the bytes out of a packed 24-bit colour gives back that colour |
| HexColor.ParseHex | ColorPop/ColorPop/ContentView.swift:141-154 | the decoder is total, and returns the gray fallback if and only if the trimmed string is empty or does not start with a hex digit |
| HexColor.ScanOfTrimmed | ColorPop/ColorPop/ContentView.swift:142-146 | after the trim the scanner has no whitespace to skip, so it fails exactly when the trimmed string does not start with a hex digit |
| HexColor.JunkIsGray | ColorPop/ColorPop/ContentView.swift:142-152 | an empty or all-punctuation input decodes to the gray fallback |
| HexColor.JunkEndsIgnored | ColorPop/ColorPop/ContentView.swift:142 | non-alphanumeric characters added at either end never change the decoded colour |
| HexColor.HashPrefixIgnored | ColorPop/ColorPop/ContentView.swift:142 | a string with a leading `#` decodes exactly like the string without it |
| HexColor.ParseHexOfDigits | ColorPop/ColorPop/ContentView.swift:142-149 | a non-empty string of hex digits decodes to the channels of its saturated numeric value |
| HexColor.RoundTrip | ColorPop/ColorPop/ContentView.swift:142-149 | for every colour, its six-digit `RRGGBB` text, with or without a leading `#`, decodes back to exactly that colour |
| HexColor.SixDigits | ColorPop/ColorPop/ContentView.swift:142-149 | any six-digit `RRGGBB` string, in either letter case, decodes to red, green and blue equal to the values of its three digit pairs |
| HexColor.CaseInsensitive | ColorPop/ColorPop/ContentView.swift:142-149 | lower-casing the input never changes the decoded colour or the fallback |
| HexColor.SingleDigitIsBlue | ColorPop/ColorPop/ContentView.swift:146-149 | a one-digit input, with or without `#`, gives red 0, green 0 and blue equal to the digit (so `"F"` is (0, 0, 15)) |
| HexColor.LastSixDigits | ColorPop/ColorPop/ContentView.swift:143-149 | a digit string of 6 to 16 digits decodes like its last six digits |
| HexColor.OverflowIsWhite | ColorPop/ColorPop/ContentView.swift:143-149 | a digit run whose value exceeds 64 bits saturates and decodes as (255, 255, 255) |
| HexColor.SampleRed | ColorPop/ColorPop/ContentView.swift:141-154 | `"#FF0000"` decodes to (255, 0, 0) |
| HexColor.SampleGreen | ColorPop/ColorPop/ContentView.swift:141-154 | `"00ff00"` decodes to (0, 255, 0) |
| PaletteScreen.Initial | ColorPop/ColorPop/ContentView.swift:30-32 | the screen starts with an empty search text, no palettes and no selection |
| PaletteScreen.EditSearch | ColorPop/ColorPop/ContentView.swift:51 | typing sets the search text and leaves the palettes and the selection alone |
| PaletteScreen.CompleteFetch | ColorPop/ColorPop/ContentView.swift:64-69 | a successful fetch sets the palettes to exactly the fetched list; a failed one leaves the whole screen unchanged; neither touches the search text or selection |
| PaletteScreen.PressGo | ColorPop/ColorPop/ContentView.swift:62-70 | Go fetches with the current search text and applies that outcome, never changing the search text or selection |
| PaletteScreen.TapSwatch | ColorPop/ColorPop/ContentView.swift:112-114 | a tap sets the selection to that swatch's hex string and changes nothing else |
| PaletteScreen.PalettesAreLastFetched | ColorPop/ColorPop/ContentView.swift:62-70 | after any sequence of events the palettes are those of the last successful fetch, or the initial ones if there was none |
| PaletteScreen.PressGoIsCompletion | ColorPop/ColorPop/ContentView.swift:62-70 | pressing Go has the same effect as the arrival of the fetch result for the current search text |
| PaletteScreen.PalettesFromLaunch | ColorPop/ColorPop/ContentView.swift:31 | from launch, the palettes on screen are those of the last successful fetch, or empty if none succeeded |
| PaletteScreen.SelectionIsLastTapped | ColorPop/ColorPop/ContentView.swift:112-114 | after any sequence of events the selection is the last tapped hex string, or the initial selection if there was no tap |
| PaletteScreen.SearchTextIsLastTyped | ColorPop/ColorPop/ContentView.swift:51 | after any sequence of events the search text is the last one typed, or the initial text |
| PaletteScreen.FailuresKeepPalettes | ColorPop/ColorPop/ContentView.swift:67-68 | a sequence of events without a successful fetch leaves the palettes unchanged |

## Left out

- Trimming.IsAlnum: Foundation's `CharacterSet.alphanumerics` covers the Unicode letter, mark and number categories; the model uses ASCII letters and digits only. A leading non-ASCII letter, mark or number (such as `é`, a combining accent, `½` or `Ⅻ`) is kept by the app but trimmed by the model, which can change the decoded colour; for `Trim` alone, trailing non-ASCII letters, marks and numbers differ too.
- HexScanner.IsWhitespace: the scanner's skip set is Unicode whitespace and newlines; the model uses ASCII whitespace. After the trim the first character is alphanumeric, so this skip never matters for the decoder.
- HexScanner.ScanHex: the optional `0x`/`0X` prefix accepted by `scanHexInt64` is not modelled; an input such as `"0x1F"` reads here as the digit run `"0"`.
- Division of the channels by 255.0 into `Double` and the construction of a SwiftUI `Color` (ContentView.swift:147-152): floating point. Channels are kept as integer bytes, and `None` stands for `.gray`.
- The network request and URL construction with percent-encoding (ContentView.swift:17-25): I/O. `PressGo` takes the fetch as a function parameter, and `FetchError` names its failure kinds.
- JSON decoding of the palette list and the locally generated `UUID` ids (ContentView.swift:5-13, 23): foreign library behaviour and non-deterministic identity. A palette is its list of colour strings.
- The `Task` started per Go press and the last-response-wins race between overlapping fetches (ContentView.swift:63-70): concurrency. Only the sequential effect of each completed fetch is modelled, in arrival order.
- The logging of a failed fetch (ContentView.swift:68): output only; the state is unchanged.
- All view layout: `ContentView.body`, `PaletteCard.body`, `ColorDetailView` and the preview. The detail view and the selection banner paint `Color(hex:)`, which is `ParseHex`.
