# indicator-stocks: the quote-row labels of the stock indicator

The indicator shows one menu row per ticker symbol followed by five fixed
entries (a separator, Preferences, Help, About, Quit). The model follows
`src/Indicator.cs` and covers its logic:

- **Label formatting** (the body of `Update`). A row label is the symbol,
  right-padded with the figure-space glyph U+2007, then a tab, then the price.
  The pad count is the pixel shortfall of this symbol against the widest
  symbol, divided (truncating) by the width of one pad glyph, plus the
  symbol's length plus one. The price is the two-decimal quote left-padded to
  eight characters with the same glyph, or `???` for a quote that is not
  positive.
- **Reverse parse** (`GetSymbolFromMenuItem`). It takes the part of a label
  before its first pad glyph.
- **Max-width fold** (`BuildMenu`). `maxWidth` takes `Math.Max` over every
  symbol's pixel width, starting from its previous value. It is never reset.
- **Row update** (`Update`). The quotes, the menu rows and the symbols are
  walked in lockstep, and each row reached is relabelled.

Modules:

- `Results`: the .NET exceptions the core can raise (`ArgumentOutOfRange`,
  `DivideByZero`), modelled as `Result`/`Outcome` values.
- `DotNetText`: the .NET string and integer operations the core uses, with
  their exact edge cases.
  - `PadRight` fails on a negative width.
  - `IndexOf` gives -1 for a missing character.
  - `Substring(0, -1)` fails.
  - `Quot` is C# `/`: it truncates toward zero and fails on a zero divisor.
- `Price`: `quote.ToString("0.00")` for a positive quote, written out as
  digits. The value is rounded half away from zero.
- `RowLabel`: the formatter and the parse, both pure.
- `StockIndicator`: the class `Indicator`.
  - It holds the symbols, `maxWidth`, the pad-glyph width fixed at
    construction, and the menu as an array of entries.
  - The ghost field `shown` records which quote each row currently displays.
  - `Valid()` ties each row's text to its symbol and that quote.

Pixel measurement (Pango) is a function `measure: string -> nat` given at
construction.

A zero pad-glyph width makes the source throw `DivideByZeroException`. The
model makes this an error outcome, not a precondition. `Update` then fails
on its first row, and nothing has changed by then.

The labels the menu is built with are `symbol + ":???"`. They hold no pad
glyph, so selecting such a row before any quote has been applied makes the
parse throw; `SelectedSymbol` returns `Failure(ArgumentOutOfRange)` for it.

One might expect `maxWidth` to be recomputed from the new list alone when
the symbol list is replaced. It is not: the field is never reset (lines 32
and 89), so it keeps the old maximum. The model follows the code, and
`StaleMaxWidthWidensPadding` shows the consequence: a list narrower than an
earlier one gets extra padding.

## Model

| member | source | states |
|---|---|---|
| DotNetText.Repeat | src/Indicator.cs:163 | `n` copies of a character, none for a negative `n`: the fill that `PadRight`/`PadLeft` add |
| DotNetText.PadRight | src/Indicator.cs:163 | fails exactly on a negative width; otherwise the string followed by fill characters, with length max(width, \|s\|) |
| DotNetText.PadLeft | src/Indicator.cs:165 | fill characters then the string, length max(width, \|s\|), ending with the string |
| DotNetText.IndexOf | src/Indicator.cs:74 | -1 exactly when the character is absent; otherwise the index of its first occurrence |
| DotNetText.Substring | src/Indicator.cs:74 | succeeds exactly when the range lies inside the string, and then returns that slice; otherwise ArgumentOutOfRange |
| DotNetText.Quot | src/Indicator.cs:159 | the C# `/` of the pad count; its contract is QuotTruncates |
| DotNetText.QuotTruncates | src/Indicator.cs:159 | C# integer division: fails exactly on a zero divisor (DivideByZero); otherwise rounds the quotient toward zero, for both signs of the dividend |
| Price.Digits | src/Indicator.cs:165 | a non-empty string of decimal digits denoting `n`, with no leading zero unless it is the single digit "0" |
| Price.Hundredths | src/Indicator.cs:165 | the quote in hundredths, within half a hundredth (rounding half away from zero) |
| Price.Render | src/Indicator.cs:165 | "0.00": at least one integer digit, a point, two decimals, denoting the quote's value in hundredths |
| Price.RenderNoLeadingZero | src/Indicator.cs:165 | the integer part of "0.00" has no leading zero beyond a single "0", so with Render the rendering is fixed |
| RowLabel.PadCount | src/Indicator.cs:159 | `nbrOfPadChars`; its contract is PadCountMeaning, AlignmentWithinOnePad and ShortfallWidensPadding |
| RowLabel.PadCountMeaning | src/Indicator.cs:159 | the pad count fails exactly on a zero glyph width; it exceeds the symbol length exactly when the symbol is narrower than the widest plus one glyph; it is at least \|s\|+1 for a symbol no wider than the widest, and exactly \|s\|+1 for the widest |
| RowLabel.AlignmentWithinOnePad | src/Indicator.cs:158-159 | in pixels, a symbol plus its pad glyphs ends after the widest symbol and at most one glyph beyond it |
| RowLabel.ShortfallWidensPadding | src/Indicator.cs:159 | a symbol narrower than the widest by a whole pad glyph or more gets more than one pad glyph |
| RowLabel.SymbolField | src/Indicator.cs:163 | the padded symbol; its contract is SymbolFieldShape |
| RowLabel.SymbolFieldShape | src/Indicator.cs:159-163 | the left segment starts with the symbol, then only pad glyphs, length max(pad count, \|s\|); at least one pad glyph for a symbol no wider than the widest; DivideByZero on a zero glyph width |
| RowLabel.PriceField | src/Indicator.cs:165 | the price segment; its contract is PriceFieldShape |
| RowLabel.PriceFieldShape | src/Indicator.cs:165 | positive quote: length max(8, \|rendering\|), ends with the rendering, pad glyphs before it; otherwise exactly "???" |
| RowLabel.FormatRow | src/Indicator.cs:162-165 | the whole label assigned in Update; its contract is FormatRowLayout, FormatRowStartsWithSymbol and RoundTrip |
| RowLabel.FormatRowLayout | src/Indicator.cs:162-165 | the label is the left segment, then a tab, then the price field; it fails exactly when the left segment does, always on a zero glyph width, and never for a symbol no wider than the widest |
| RowLabel.FormatRowStartsWithSymbol | src/Indicator.cs:163 | every label starts with its symbol and is longer than it |
| RowLabel.InitialLabel | src/Indicator.cs:85 | "symbol:???"; its contract is InitialLabelShape and InitialLabelParse |
| RowLabel.InitialLabelShape | src/Indicator.cs:85 | the initial label is the symbol plus four characters and holds a pad glyph exactly when the symbol does |
| RowLabel.SymbolFromLabel | src/Indicator.cs:71-75 | succeeds exactly when the label holds a pad glyph, and returns the pad-free prefix before its first pad glyph; otherwise ArgumentOutOfRange |
| RowLabel.ParseAtFirstPad | src/Indicator.cs:74 | the parse stops at the first pad glyph |
| RowLabel.ParsePrefixedBySymbol | src/Indicator.cs:74 | a label starting with a symbol that contains the pad glyph parses to that symbol's part before the glyph |
| RowLabel.RoundTrip | src/Indicator.cs:158-165 | for a symbol without the pad glyph, parsing its label gives the symbol back exactly when it is narrower than the widest symbol plus one glyph |
| RowLabel.PadInSymbolTruncates | src/Indicator.cs:71-75 | a symbol containing the pad glyph is parsed back shorter, cut at its first pad glyph |
| RowLabel.InitialLabelParse | src/Indicator.cs:71-75 | parsing "symbol:???" fails with ArgumentOutOfRange for a symbol without the pad glyph, and otherwise cuts the symbol at its pad glyph |
| RowLabel.WidestSymbolOnePad | src/Indicator.cs:159-163 | the widest symbol is followed by exactly one pad glyph |
| RowLabel.PriceFieldExample | src/Indicator.cs:165 | 150.5 gives two pad glyphs then "150.50" |
| RowLabel.TwoRowExample | src/Indicator.cs:158-165 | concrete labels for AAPL at 150.5 (two pad glyphs) and for the widest symbol GOOG with no quote (one pad glyph, "???") |
| StockIndicator.MaxWidth | src/Indicator.cs:83-90 | the `Math.Max` fold; its contract is MaxWidthIsUpperBound and MaxWidthIsAttained |
| StockIndicator.MaxWidthIsUpperBound | src/Indicator.cs:83-90 | the fold is at least its start value and the width of every symbol |
| StockIndicator.MaxWidthIsAttained | src/Indicator.cs:89 | the fold equals its start value or the width of one of the symbols |
| StockIndicator.StaleMaxWidthWidensPadding | src/Indicator.cs:32 | a list whose every symbol is at least one pad glyph narrower than the old maximum keeps that maximum, and each of its symbols gets more than one pad glyph |
| StockIndicator.RelabelKeepsMenu | src/Indicator.cs:161-165 | writing a formatted label into one quote row keeps the menu invariant and records that row's quote |
| StockIndicator.FreshMenuShows | src/Indicator.cs:83-93 | a freshly built menu satisfies the invariant with no quote recorded |
| StockIndicator.QuotedRowsShowLabels | src/Indicator.cs:158-165 | every row recorded with quote i shows the label formatted from symbol i and quote i |
| StockIndicator.Indicator.constructor | src/Indicator.cs:46-58 | the pad-glyph width is measured once; the symbols come from the configuration; maxWidth is the fold from 0; every row shows "symbol:???" |
| StockIndicator.Indicator.BuildMenu | src/Indicator.cs:77-97 | a fresh menu with every row "symbol:???" and the default entries after; maxWidth is the fold from its old value; the invariant holds |
| StockIndicator.Indicator.BuildRows | src/Indicator.cs:83-93 | the loop: one "symbol:???" row per symbol, then the defaults; the width is the `Math.Max` fold over the symbols |
| StockIndicator.Indicator.AppendDefaults | src/Indicator.cs:99-134 | the five default entries follow the quote rows, which stay unchanged |
| StockIndicator.Indicator.SetSymbols | src/Indicator.cs:35-44 | replaces the symbols and rebuilds the menu; maxWidth never decreases and bounds every new symbol's width |
| StockIndicator.Indicator.Update | src/Indicator.cs:146-169 | rows below min(\|quotes\|, \|symbols\|) show the label of symbol i and quote i; every other row, the defaults included, is unchanged; fails with DivideByZero, changing nothing, exactly when the glyph width is zero and some row is reached |
| StockIndicator.Indicator.Relabel | src/Indicator.cs:158-165 | one loop step: the row shows FormatRow of its symbol and the quote, and no other row changes; fails, changing nothing, exactly on a zero glyph width |
| StockIndicator.Indicator.SelectedSymbol | src/Indicator.cs:265-267 | the parse of the activated row; for a symbol without the pad glyph, it returns the symbol exactly when a quote has been applied to the row, and fails with ArgumentOutOfRange on a "symbol:???" row |

## Left out

- GTK/AppIndicator wiring is not modelled: the indicator status, `menu.ShowAll`, the accelerators and the `Activated` handlers. This is toolkit plumbing; the default entries appear only as five tagged menu entries.
- `menu.Dispose` in the `Symbols` setter is not modelled. The model allocates a fresh array instead.
- Pango measurement (`GetTextPixelLength`) is the oracle `measure`, because it is a foreign library.
- A quote is a `real`, not a 32-bit `float`. The binary rounding before formatting, NaN and infinities, and the culture's decimal separator (the model always uses '.') are left out.
- Price.Render: states the rendering for its real value with "round half away from zero". How .NET rounds the nearest binary float is not captured.
- `Quotes.GetQuotes` and `Quotes.GetChartUrl` are network calls into a library that is not part of this model. `Update` takes the quotes as a parameter, and `SelectedSymbol` stops before the chart lookup.
- `Start`, `OnTimer`, the timer and `Gtk.Application.Invoke` (scheduling and cross-thread dispatch) are not modelled. Each `Update` call is one atomic step here.
- The dialogs (`OnPrefs`, `OnHelp`, `OnInfo`), `OnQuit`, `Process.Start`, the `DllImport` and the file-system checks are left out. They are I/O.
- StockIndicator.Indicator.Update: an exception ends the update as an error outcome. What the unhandled exception then does to the GTK main loop is not modelled.
- C# 32-bit overflow of the pixel arithmetic and of `maxWidth` is not modelled. Widths are unbounded integers.
- `PadLeft` is called only with the constant width 8, so its negative-width exception cannot occur. Its width is a `nat`.
