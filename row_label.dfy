/** The text of one quote row of the indicator menu, and the parse that
    recovers the ticker symbol from it.

    A row reads `<symbol><pads>TAB<price>`: the symbol is right-padded with the
    figure-space glyph U+2007 so that the prices line up, and the price is
    either the two-decimal quote left-padded to eight characters with the
    same glyph, or the placeholder "???". Pixel widths come from a measuring
    oracle and enter here as numbers. */
module RowLabel {
  import opened Results
  import opened DotNetText
  import opened Price

  /** The pad glyph, FIGURE SPACE (U+2007); it doubles as the parse delimiter. */
  const PAD_CHAR: char := '\U{2007}'
  /** Between the padded symbol and the price. */
  const SEPARATOR: string := "\t"
  /** Shown instead of a price that is not positive. */
  const QUOTE_UNKNOWN: string := "???"
  /** The width the price is right-justified to. */
  const PRICE_WIDTH: nat := 8

  /** The total width the symbol is padded to: the pixel shortfall of this
      symbol against the widest one, in whole pad glyphs (C# division, so
      truncated toward zero), plus the symbol's own length, plus one.
      PadCountMeaning states what it guarantees. */
  function PadCount(symbol: string, curWidth: nat, maxWidth: int, spaceWidth: nat): Result<int>
  {
    var deficit :- Quot(maxWidth - curWidth, spaceWidth);
    Success(deficit + |symbol| + 1)
  }

  /** The pad count fails only on a zero glyph width; at least one pad glyph
      follows the symbol exactly when it is narrower than the widest symbol
      plus one glyph; a symbol no wider than the widest gets at least one, and
      the widest symbol exactly one. */
  lemma PadCountMeaning(symbol: string, curWidth: nat, maxWidth: int, spaceWidth: nat)
    ensures PadCount(symbol, curWidth, maxWidth, spaceWidth).Failure? <==> spaceWidth == 0
    ensures spaceWidth == 0 ==> PadCount(symbol, curWidth, maxWidth, spaceWidth) == Failure(DivideByZero)
    ensures 0 < spaceWidth ==>
      (PadCount(symbol, curWidth, maxWidth, spaceWidth).value > |symbol| <==> curWidth < maxWidth + spaceWidth)
    ensures 0 < spaceWidth && curWidth <= maxWidth ==>
      PadCount(symbol, curWidth, maxWidth, spaceWidth).value >= |symbol| + 1
    ensures 0 < spaceWidth && curWidth == maxWidth ==>
      PadCount(symbol, curWidth, maxWidth, spaceWidth).value == |symbol| + 1
  {
    QuotTruncates(maxWidth - curWidth, spaceWidth);
    if 0 < spaceWidth {
      var d := Quot(maxWidth - curWidth, spaceWidth).value;
      if maxWidth - curWidth < 0 {
        if d < 0 {
          assert d * spaceWidth <= -(spaceWidth as int);
        }
      } else {
        assert 0 <= d;
      }
    }
  }

  /** Measured in pixels, if every pad glyph is `spaceWidth` wide, a symbol
      no wider than the widest one ends, with its pads, after the widest
      symbol and by at most one more glyph: the alignment is off by under one
      pad glyph. */
  lemma AlignmentWithinOnePad(symbol: string, curWidth: nat, maxWidth: int, spaceWidth: nat)
    requires 0 < spaceWidth && curWidth <= maxWidth
    ensures var pads := PadCount(symbol, curWidth, maxWidth, spaceWidth).value - |symbol|;
      maxWidth < curWidth + pads * spaceWidth <= maxWidth + spaceWidth
  {
    QuotTruncates(maxWidth - curWidth, spaceWidth);
    var d := Quot(maxWidth - curWidth, spaceWidth).value;
    assert PadCount(symbol, curWidth, maxWidth, spaceWidth).value - |symbol| == d + 1;
    assert (d + 1) * spaceWidth == d * spaceWidth + spaceWidth;
  }

  /** A symbol narrower than the widest by a whole pad glyph or more gets
      more than one pad glyph. */
  lemma ShortfallWidensPadding(symbol: string, curWidth: nat, maxWidth: int, spaceWidth: nat)
    requires 0 < spaceWidth && curWidth + spaceWidth <= maxWidth
    ensures PadCount(symbol, curWidth, maxWidth, spaceWidth).value > |symbol| + 1
  {
    AlignmentWithinOnePad(symbol, curWidth, maxWidth, spaceWidth);
  }

  /** The left segment: `symbol.PadRight(PadCount(...), PAD_CHAR)`;
      SymbolFieldShape states its shape. */
  function SymbolField(symbol: string, curWidth: nat, maxWidth: int, spaceWidth: nat): Result<string>
  {
    var n :- PadCount(symbol, curWidth, maxWidth, spaceWidth);
    PadRight(symbol, n, PAD_CHAR)
  }

  /** The left segment starts with the symbol and continues with pad glyphs
      only, up to the pad count; it fails on a zero glyph width, and for a
      symbol no wider than the widest it exists and is longer than the symbol. */
  lemma SymbolFieldShape(symbol: string, curWidth: nat, maxWidth: int, spaceWidth: nat)
    ensures var r := SymbolField(symbol, curWidth, maxWidth, spaceWidth);
      && (spaceWidth == 0 ==> r == Failure(DivideByZero))
      && (0 < spaceWidth && curWidth <= maxWidth ==> r.Success? && |symbol| < |r.value|)
      && (0 < spaceWidth ==> (r.Success? <==> PadCount(symbol, curWidth, maxWidth, spaceWidth).value >= 0))
      && (r.Failure? && 0 < spaceWidth ==> r.error == ArgumentOutOfRange)
      && (r.Success? ==> |r.value| == Max(PadCount(symbol, curWidth, maxWidth, spaceWidth).value, |symbol|))
      && (r.Success? ==> r.value[..|symbol|] == symbol)
      && (r.Success? ==> forall i :: |symbol| <= i < |r.value| ==> r.value[i] == PAD_CHAR)
  {
    PadCountMeaning(symbol, curWidth, maxWidth, spaceWidth);
  }

  /** The right segment: the price right-justified to eight characters with
      pad glyphs, or the bare placeholder when the quote is not positive (zero
      counts as unknown); PriceFieldShape states its shape. */
  function PriceField(q: Quote): string
  {
    if 0.0 < q then PadLeft(Render(q), PRICE_WIDTH, PAD_CHAR) else QUOTE_UNKNOWN
  }

  /** A positive quote gives a field of max(8, |rendering|) characters that
      ends with the rendering and is pad glyphs before it; any other quote
      gives exactly "???". */
  lemma PriceFieldShape(q: Quote)
    ensures 0.0 < q ==> |PriceField(q)| == Max(PRICE_WIDTH, |Render(q)|)
    ensures 0.0 < q ==> PriceField(q)[|PriceField(q)| - |Render(q)|..] == Render(q)
    ensures 0.0 < q ==> forall i :: 0 <= i < |PriceField(q)| - |Render(q)| ==> PriceField(q)[i] == PAD_CHAR
    ensures q <= 0.0 ==> PriceField(q) == QUOTE_UNKNOWN
  {
  }

  /** The whole row label that Update assigns; FormatRowLayout states its
      shape. */
  function FormatRow(symbol: string, curWidth: nat, maxWidth: int, spaceWidth: nat, q: Quote): Result<string>
  {
    var field :- SymbolField(symbol, curWidth, maxWidth, spaceWidth);
    Success(field + SEPARATOR + PriceField(q))
  }

  /** A row label is the padded symbol, the tab and the price field; it fails
      exactly when padding the symbol does, always on a zero glyph width and
      never for a symbol no wider than the widest. */
  lemma FormatRowLayout(symbol: string, curWidth: nat, maxWidth: int, spaceWidth: nat, q: Quote)
    ensures var r := FormatRow(symbol, curWidth, maxWidth, spaceWidth, q);
      && (r.Success? <==> SymbolField(symbol, curWidth, maxWidth, spaceWidth).Success?)
      && (r.Failure? ==> r.error == SymbolField(symbol, curWidth, maxWidth, spaceWidth).error)
      && (r.Success? ==>
            r.value == SymbolField(symbol, curWidth, maxWidth, spaceWidth).value + SEPARATOR + PriceField(q))
      && (0 < spaceWidth && curWidth <= maxWidth ==> r.Success?)
      && (spaceWidth == 0 ==> r == Failure(DivideByZero))
  {
    SymbolFieldShape(symbol, curWidth, maxWidth, spaceWidth);
  }

  /** The label a row shows when the menu is (re)built, before any quote. */
  function InitialLabel(symbol: string): string
  {
    symbol + ":" + QUOTE_UNKNOWN
  }

  /** The initial label starts with the symbol, is four characters longer,
      and holds a pad glyph exactly when the symbol does. */
  lemma InitialLabelShape(symbol: string)
    ensures |InitialLabel(symbol)| == |symbol| + 4
    ensures InitialLabel(symbol)[..|symbol|] == symbol
    ensures PAD_CHAR in InitialLabel(symbol) <==> PAD_CHAR in symbol
  {
    var r := InitialLabel(symbol);
    assert r[..|symbol|] == symbol;
    assert forall i :: |symbol| <= i < |r| ==> r[i] != PAD_CHAR;
  }

  /** GetSymbolFromMenuItem: the label up to its first pad glyph; a label
      without one makes Substring(0, -1) throw. */
  function SymbolFromLabel(text: string): (r: Result<string>)
    ensures r.Success? <==> PAD_CHAR in text
    ensures r.Failure? ==> r.error == ArgumentOutOfRange
    ensures r.Success? ==> |r.value| < |text| && r.value == text[..|r.value|]
    ensures r.Success? ==> text[|r.value|] == PAD_CHAR && PAD_CHAR !in r.value
  {
    Substring(text, 0, IndexOf(text, PAD_CHAR))
  }

  /** The parse ends at the first pad glyph of the label. */
  lemma ParseAtFirstPad(text: string, k: nat)
    requires k < |text| && text[k] == PAD_CHAR
    requires PAD_CHAR !in text[..k]
    ensures SymbolFromLabel(text) == Success(text[..k])
  {
    var r := SymbolFromLabel(text).value;
  }

  /** Round trip: for a symbol without the pad glyph, parsing its formatted
      row gives the symbol back exactly when at least one pad glyph follows it,
      which is when it is narrower than the widest symbol plus one glyph
      (always, for a symbol no wider than the widest). */
  lemma RoundTrip(symbol: string, curWidth: nat, maxWidth: int, spaceWidth: nat, q: Quote)
    requires PAD_CHAR !in symbol
    requires FormatRow(symbol, curWidth, maxWidth, spaceWidth, q).Success?
    ensures SymbolFromLabel(FormatRow(symbol, curWidth, maxWidth, spaceWidth, q).value) == Success(symbol)
        <==> curWidth < maxWidth + spaceWidth
  {
    FormatRowLayout(symbol, curWidth, maxWidth, spaceWidth, q);
    SymbolFieldShape(symbol, curWidth, maxWidth, spaceWidth);
    PadCountMeaning(symbol, curWidth, maxWidth, spaceWidth);
    var field := SymbolField(symbol, curWidth, maxWidth, spaceWidth).value;
    var text := FormatRow(symbol, curWidth, maxWidth, spaceWidth, q).value;
    assert text[..|field|] == field;
    assert text[..|symbol|] == symbol;
    if curWidth < maxWidth + spaceWidth {
      ParseAtFirstPad(text, |symbol|);
    } else {
      assert field == symbol;
      assert text[|symbol|] == '\t';
    }
  }

  /** A label that starts with a symbol containing the pad glyph parses to
      the part of the symbol before its first pad glyph. */
  lemma ParsePrefixedBySymbol(text: string, symbol: string)
    requires PAD_CHAR in symbol
    requires |symbol| <= |text| && text[..|symbol|] == symbol
    ensures SymbolFromLabel(text) == Success(symbol[..IndexOf(symbol, PAD_CHAR)])
  {
    var k := IndexOf(symbol, PAD_CHAR);
    assert text[k] == text[..|symbol|][k];
    assert text[..k] == text[..|symbol|][..k];
    ParseAtFirstPad(text, k);
  }

  /** Every row label starts with its symbol. */
  lemma FormatRowStartsWithSymbol(symbol: string, curWidth: nat, maxWidth: int, spaceWidth: nat, q: Quote)
    requires FormatRow(symbol, curWidth, maxWidth, spaceWidth, q).Success?
    ensures var text := FormatRow(symbol, curWidth, maxWidth, spaceWidth, q).value;
      |symbol| < |text| && text[..|symbol|] == symbol
  {
    FormatRowLayout(symbol, curWidth, maxWidth, spaceWidth, q);
    SymbolFieldShape(symbol, curWidth, maxWidth, spaceWidth);
    var field := SymbolField(symbol, curWidth, maxWidth, spaceWidth).value;
    var text := FormatRow(symbol, curWidth, maxWidth, spaceWidth, q).value;
    assert text[..|field|] == field;
    assert text[..|symbol|] == field[..|symbol|];
  }

  /** A symbol that contains the pad glyph is cut short by the parse. */
  lemma PadInSymbolTruncates(symbol: string, curWidth: nat, maxWidth: int, spaceWidth: nat, q: Quote)
    requires PAD_CHAR in symbol
    requires FormatRow(symbol, curWidth, maxWidth, spaceWidth, q).Success?
    ensures SymbolFromLabel(FormatRow(symbol, curWidth, maxWidth, spaceWidth, q).value)
        == Success(symbol[..IndexOf(symbol, PAD_CHAR)])
    ensures |symbol[..IndexOf(symbol, PAD_CHAR)]| < |symbol|
  {
    FormatRowStartsWithSymbol(symbol, curWidth, maxWidth, spaceWidth, q);
    ParsePrefixedBySymbol(FormatRow(symbol, curWidth, maxWidth, spaceWidth, q).value, symbol);
  }

  /** The label written when the menu is built holds no pad glyph of its own:
      parsing it throws, unless the symbol itself contains the glyph. */
  lemma InitialLabelParse(symbol: string)
    ensures PAD_CHAR !in symbol ==> SymbolFromLabel(InitialLabel(symbol)) == Failure(ArgumentOutOfRange)
    ensures PAD_CHAR in symbol ==>
      SymbolFromLabel(InitialLabel(symbol)) == Success(symbol[..IndexOf(symbol, PAD_CHAR)])
  {
    InitialLabelShape(symbol);
    if PAD_CHAR in symbol {
      ParsePrefixedBySymbol(InitialLabel(symbol), symbol);
    }
  }

  /** The widest symbol is followed by exactly one pad glyph. */
  lemma WidestSymbolOnePad(symbol: string, width: nat, spaceWidth: nat, q: Quote)
    requires 0 < spaceWidth
    ensures SymbolField(symbol, width, width, spaceWidth) == Success(symbol + [PAD_CHAR])
    ensures FormatRow(symbol, width, width, spaceWidth, q)
         == Success(symbol + [PAD_CHAR] + SEPARATOR + PriceField(q))
  {
    SymbolFieldShape(symbol, width, width, spaceWidth);
    PadCountMeaning(symbol, width, width, spaceWidth);
    var field := SymbolField(symbol, width, width, spaceWidth).value;
    assert field == symbol + [PAD_CHAR];
    FormatRowLayout(symbol, width, width, spaceWidth, q);
  }

  /** The quote 150.5 is written "150.50" and right-justified to eight
      characters with two pad glyphs. */
  lemma PriceFieldExample()
    ensures PriceField(150.5) == [PAD_CHAR, PAD_CHAR] + "150.50"
  {
    assert Hundredths(150.5) == 15050;
    assert Digits(1) == "1";
    assert Digits(15) == "15";
    assert Digits(150) == "150";
    assert Render(150.5) == "150.50";
  }

  /** Two rows, AAPL at 150.5 and GOOG without a quote, where GOOG is the
      widest symbol (44 pixels), AAPL measures 37 and a pad glyph 4: AAPL
      gets (44 - 37) / 4 = 1 extra glyph beyond the one every row gets, and
      the price "150.50" is right-justified to eight characters. */
  lemma TwoRowExample()
    ensures FormatRow("AAPL", 37, 44, 4, 150.5)
         == Success("AAPL" + [PAD_CHAR, PAD_CHAR] + "\t" + [PAD_CHAR, PAD_CHAR] + "150.50")
    ensures FormatRow("GOOG", 44, 44, 4, 0.0) == Success("GOOG" + [PAD_CHAR] + "\t???")
  {
    PriceFieldExample();
    assert PadCount("AAPL", 37, 44, 4) == Success(6);
    assert PadRight("AAPL", 6, PAD_CHAR) == Success("AAPL" + [PAD_CHAR, PAD_CHAR]);
    assert SymbolField("AAPL", 37, 44, 4) == Success("AAPL" + [PAD_CHAR, PAD_CHAR]);
    assert FormatRow("AAPL", 37, 44, 4, 150.5).value
        == "AAPL" + [PAD_CHAR, PAD_CHAR] + "\t" + [PAD_CHAR, PAD_CHAR] + "150.50";
    WidestSymbolOnePad("GOOG", 44, 4, 0.0);
    assert "GOOG" + [PAD_CHAR] + SEPARATOR + "???" == "GOOG" + [PAD_CHAR] + "\t???";
  }
}
