/** The indicator object: its symbol list, the widest symbol width it has
    seen, and the menu whose quote rows it relabels on every refresh.

    Pixel widths come from `measure`, a measuring oracle fixed at
    construction (the text layout is created once and reused). */
module StockIndicator {
  import opened Results
  import opened DotNetText
  import opened Price
  import opened RowLabel

  /** One entry of the indicator menu. Quote rows carry the text of their
      label; the entries appended after them carry no text the core uses. */
  datatype MenuEntry = QuoteItem(text: string) | Separator | Preferences | Help | About | Quit

  /** The entries appended after the quote rows, in order. */
  const DEFAULT_ITEMS: seq<MenuEntry> := [Separator, Preferences, Help, About, Quit]

  /** `Math.Max` folded over the widths of `symbols`, starting from `start`. */
  function MaxWidth(start: int, symbols: seq<string>, measure: string -> nat): int
  {
    if symbols == [] then start
    else Max(MaxWidth(start, symbols[..|symbols| - 1], measure), measure(symbols[|symbols| - 1]))
  }

  /** The fold bounds the start value and every width. */
  lemma {:induction false} MaxWidthIsUpperBound(start: int, symbols: seq<string>, measure: string -> nat)
    ensures start <= MaxWidth(start, symbols, measure)
    ensures forall s :: s in symbols ==> measure(s) <= MaxWidth(start, symbols, measure)
  {
    if symbols != [] {
      var init := symbols[..|symbols| - 1];
      MaxWidthIsUpperBound(start, init, measure);
      assert symbols == init + [symbols[|symbols| - 1]];
    }
  }

  /** The fold is the start value or the width of one of the symbols, so with
      the bound above it is their maximum. */
  lemma {:induction false} MaxWidthIsAttained(start: int, symbols: seq<string>, measure: string -> nat)
    ensures MaxWidth(start, symbols, measure) == start
         || exists i :: 0 <= i < |symbols| && MaxWidth(start, symbols, measure) == measure(symbols[i])
  {
    if symbols != [] {
      var init := symbols[..|symbols| - 1];
      MaxWidthIsAttained(start, init, measure);
      var m := MaxWidth(start, init, measure);
      if m != start && m >= measure(symbols[|symbols| - 1]) {
        var i :| 0 <= i < |init| && m == measure(init[i]);
        assert symbols[i] == init[i];
      }
    }
  }

  /** Because the width is never reset, a symbol list that replaces a wider
      one keeps the old width, and each of its symbols that falls short of it
      by a whole pad glyph or more gets more than one pad glyph. */
  lemma {:induction false} StaleMaxWidthWidensPadding(previous: int, symbols: seq<string>,
                                                      measure: string -> nat, spaceWidth: nat)
    requires 0 < spaceWidth
    requires forall s :: s in symbols ==> measure(s) + spaceWidth <= previous
    ensures MaxWidth(previous, symbols, measure) == previous
    ensures forall s :: s in symbols ==>
      PadCount(s, measure(s), MaxWidth(previous, symbols, measure), spaceWidth).value > |s| + 1
  {
    if symbols != [] {
      var init := symbols[..|symbols| - 1];
      assert forall s :: s in init ==> s in symbols;
      StaleMaxWidthWidensPadding(previous, init, measure, spaceWidth);
    }
    forall s | s in symbols
      ensures PadCount(s, measure(s), previous, spaceWidth).value > |s| + 1
    {
      ShortfallWidensPadding(s, measure(s), previous, spaceWidth);
    }
  }

  /** What a quote row shows: the label built with the menu, or the label of
      the quote last applied to it. */
  ghost predicate RowShows(entry: MenuEntry, symbol: string, quote: Option<Quote>,
                           maxWidth: int, spaceWidth: nat, measure: string -> nat)
  {
    match quote
    case None => entry == QuoteItem(InitialLabel(symbol))
    case Some(q) =>
      entry.QuoteItem? && FormatRow(symbol, measure(symbol), maxWidth, spaceWidth, q) == Success(entry.text)
  }

  /** The menu invariant on values: the width bounds every symbol's width,
      row i shows symbol i as `shown[i]` says, and the default entries follow. */
  ghost predicate MenuShows(rows: seq<MenuEntry>, symbols: seq<string>, shown: seq<Option<Quote>>,
                            maxWidth: int, spaceWidth: nat, measure: string -> nat)
  {
    && (forall s :: s in symbols ==> measure(s) <= maxWidth)
    && |rows| == |symbols| + |DEFAULT_ITEMS|
    && |shown| == |symbols|
    && (forall i {:trigger RowShows(rows[i], symbols[i], shown[i], maxWidth, spaceWidth, measure)} ::
          0 <= i < |symbols| ==> RowShows(rows[i], symbols[i], shown[i], maxWidth, spaceWidth, measure))
    && rows[|symbols|..] == DEFAULT_ITEMS
  }

  /** Relabelling one quote row with the label of a quote keeps the invariant
      and records that quote for the row. */
  lemma RelabelKeepsMenu(rows: seq<MenuEntry>, symbols: seq<string>, shown: seq<Option<Quote>>,
                         maxWidth: int, spaceWidth: nat, measure: string -> nat,
                         row: nat, text: string, q: Quote)
    requires MenuShows(rows, symbols, shown, maxWidth, spaceWidth, measure)
    requires row < |symbols|
    requires FormatRow(symbols[row], measure(symbols[row]), maxWidth, spaceWidth, q) == Success(text)
    ensures MenuShows(rows[row := QuoteItem(text)], symbols, shown[row := Some(q)], maxWidth, spaceWidth, measure)
  {
    var rows', shown' := rows[row := QuoteItem(text)], shown[row := Some(q)];
    forall i | 0 <= i < |symbols|
      ensures RowShows(rows'[i], symbols[i], shown'[i], maxWidth, spaceWidth, measure)
    {
      if i != row {
        assert rows'[i] == rows[i] && shown'[i] == shown[i];
      }
    }
    assert rows'[|symbols|..] == rows[|symbols|..];
  }

  /** A freshly built menu, every quote row showing its initial label and the
      default entries after them, satisfies the invariant with no quote
      recorded for any row. */
  lemma FreshMenuShows(rows: seq<MenuEntry>, symbols: seq<string>,
                       maxWidth: int, spaceWidth: nat, measure: string -> nat)
    requires forall s :: s in symbols ==> measure(s) <= maxWidth
    requires |rows| == |symbols| + |DEFAULT_ITEMS|
    requires forall i :: 0 <= i < |symbols| ==> rows[i] == QuoteItem(InitialLabel(symbols[i]))
    requires forall i :: 0 <= i < |DEFAULT_ITEMS| ==> rows[|symbols| + i] == DEFAULT_ITEMS[i]
    ensures MenuShows(rows, symbols, seq(|symbols|, _ => None), maxWidth, spaceWidth, measure)
  {
    var shown: seq<Option<Quote>> := seq(|symbols|, _ => None);
    forall i | 0 <= i < |symbols|
      ensures RowShows(rows[i], symbols[i], shown[i], maxWidth, spaceWidth, measure)
    {
      assert shown[i] == None;
    }
    assert rows[|symbols|..] == DEFAULT_ITEMS;
  }

  /** Every row whose recorded quote is the matching entry of `quotes` shows
      the label formatted from that quote. */
  lemma QuotedRowsShowLabels(rows: seq<MenuEntry>, symbols: seq<string>, shown: seq<Option<Quote>>,
                             maxWidth: int, spaceWidth: nat, measure: string -> nat, quotes: seq<Quote>)
    requires MenuShows(rows, symbols, shown, maxWidth, spaceWidth, measure)
    requires forall i :: 0 <= i < Min(|quotes|, |symbols|) ==> shown[i] == Some(quotes[i])
    ensures forall i :: 0 <= i < Min(|quotes|, |symbols|) ==> (rows[i].QuoteItem? &&
      FormatRow(symbols[i], measure(symbols[i]), maxWidth, spaceWidth, quotes[i]) == Success(rows[i].text))
  {
    forall i | 0 <= i < Min(|quotes|, |symbols|)
      ensures rows[i].QuoteItem? &&
        FormatRow(symbols[i], measure(symbols[i]), maxWidth, spaceWidth, quotes[i]) == Success(rows[i].text)
    {
      assert RowShows(rows[i], symbols[i], shown[i], maxWidth, spaceWidth, measure);
    }
  }

  class Indicator {
    /** The pixel width of a string in the default font. */
    const measure: string -> nat
    /** The pixel width of one pad glyph, measured once at construction. */
    const spaceWidth: nat
    /** The widest symbol width measured so far; it is never reset. */
    var maxWidth: int
    var symbols: seq<string>
    /** The menu: one quote row per symbol, then DEFAULT_ITEMS. */
    var menu: array<MenuEntry>
    /** The quote each row displays; None for a row not yet updated. */
    ghost var shown: seq<Option<Quote>>

    ghost predicate Valid()
      reads this, menu
    {
      && spaceWidth == measure([PAD_CHAR])
      && MenuShows(menu[..], symbols, shown, maxWidth, spaceWidth, measure)
    }

    /** Reads the symbols from the configuration, measures the pad glyph and
        builds the menu. */
    constructor (configSymbols: seq<string>, measure: string -> nat)
      ensures Valid() && fresh(menu)
      ensures this.measure == measure && spaceWidth == measure([PAD_CHAR])
      ensures symbols == configSymbols
      ensures maxWidth == MaxWidth(0, configSymbols, measure)
      ensures forall i :: 0 <= i < |symbols| ==> menu[i] == QuoteItem(InitialLabel(symbols[i]))
    {
      this.measure := measure;
      spaceWidth := measure([PAD_CHAR]);
      symbols := configSymbols;
      maxWidth := 0;
      menu := new MenuEntry[0];
      shown := [];
      new;
      BuildMenu();
    }

    /** A new menu with one row "symbol:???" per symbol, followed by the
        default entries, folding each symbol's width into maxWidth. */
    method BuildMenu()
      requires spaceWidth == measure([PAD_CHAR])
      modifies this
      ensures Valid() && fresh(menu)
      ensures symbols == old(symbols)
      ensures maxWidth == MaxWidth(old(maxWidth), symbols, measure)
      ensures forall i :: 0 <= i < |symbols| ==> menu[i] == QuoteItem(InitialLabel(symbols[i]))
      ensures forall i :: 0 <= i < |symbols| ==> shown[i] == None
    {
      var items, width := BuildRows(symbols, measure, maxWidth);
      MaxWidthIsUpperBound(maxWidth, symbols, measure);
      FreshMenuShows(items[..], symbols, width, spaceWidth, measure);
      maxWidth := width;
      menu := items;
      shown := seq(|symbols|, _ => None);
    }

    /** BuildMenu's loop and AddDefaultMenus: a fresh menu with one row
        "symbol:???" per symbol followed by the default entries, and the
        width `start` with every symbol's width folded in by `Math.Max`. */
    static method BuildRows(symbols: seq<string>, measure: string -> nat, start: int)
      returns (items: array<MenuEntry>, width: int)
      ensures fresh(items) && items.Length == |symbols| + |DEFAULT_ITEMS|
      ensures width == MaxWidth(start, symbols, measure)
      ensures forall i :: 0 <= i < |symbols| ==> items[i] == QuoteItem(InitialLabel(symbols[i]))
      ensures forall i :: 0 <= i < |DEFAULT_ITEMS| ==> items[|symbols| + i] == DEFAULT_ITEMS[i]
    {
      var n := |symbols|;
      width := start;
      items := new MenuEntry[n + |DEFAULT_ITEMS|];
      var k := 0;
      while k < n
        modifies items
        invariant 0 <= k <= n
        invariant width == MaxWidth(start, symbols[..k], measure)
        invariant forall i :: 0 <= i < k ==> items[i] == QuoteItem(InitialLabel(symbols[i]))
      {
        items[k] := QuoteItem(InitialLabel(symbols[k]));
        assert symbols[..k + 1][..k] == symbols[..k];
        width := Max(width, measure(symbols[k]));
        k := k + 1;
      }
      AppendDefaults(items, n);
      assert symbols[..n] == symbols;
    }

    /** AddDefaultMenus: the default entries go after the first `n` rows,
        which stay as they are. */
    static method AppendDefaults(items: array<MenuEntry>, n: nat)
      requires items.Length == n + |DEFAULT_ITEMS|
      modifies items
      ensures forall i :: 0 <= i < n ==> items[i] == old(items[i])
      ensures forall i :: 0 <= i < |DEFAULT_ITEMS| ==> items[n + i] == DEFAULT_ITEMS[i]
    {
      items[n] := Separator;
      items[n + 1] := Preferences;
      items[n + 2] := Help;
      items[n + 3] := About;
      items[n + 4] := Quit;
    }

    /** The `Symbols` setter: replace the list and rebuild the menu. */
    method SetSymbols(newSymbols: seq<string>)
      requires Valid()
      modifies this
      ensures Valid() && fresh(menu)
      ensures symbols == newSymbols
      ensures maxWidth == MaxWidth(old(maxWidth), newSymbols, measure)
      ensures old(maxWidth) <= maxWidth
      ensures forall i :: 0 <= i < |symbols| ==> menu[i] == QuoteItem(InitialLabel(symbols[i]))
    {
      symbols := newSymbols;
      BuildMenu();
      MaxWidthIsUpperBound(old(maxWidth), newSymbols, measure);
    }

    /** Applies one batch of quotes: the menu enumerator and the symbol
        enumerator advance together with each quote, and the row they stand
        on is relabelled. Row i changes exactly when i is below the number of
        quotes, of symbols and of menu entries. A zero pad-glyph width makes
        the first relabelling throw before any row changes. */
    method Update(quotes: seq<Quote>) returns (outcome: Outcome)
      requires Valid()
      modifies this`shown, menu
      ensures Valid()
      ensures outcome.Fail? <==> spaceWidth == 0 && Min(|quotes|, |symbols|) > 0
      ensures outcome.Fail? ==> outcome.error == DivideByZero
      ensures outcome.Fail? ==> shown == old(shown) && menu[..] == old(menu[..])
      ensures outcome.Pass? ==> forall i :: Min(|quotes|, |symbols|) <= i < menu.Length ==> menu[i] == old(menu[i])
      ensures outcome.Pass? ==> |shown| == |symbols| && forall i :: 0 <= i < |symbols| ==>
        shown[i] == if i < |quotes| then Some(quotes[i]) else old(shown[i])
      ensures outcome.Pass? ==> forall i :: 0 <= i < Min(|quotes|, |symbols|) ==>
        (menu[i].QuoteItem? &&
         FormatRow(symbols[i], measure(symbols[i]), maxWidth, spaceWidth, quotes[i]) == Success(menu[i].text))
    {
      var menuPos := 0;    // entries the menu enumerator has moved past
      var symbolPos := 0;  // symbols the symbol enumerator has moved past
      var j := 0;
      while j < |quotes|
        invariant 0 <= j <= |quotes|
        invariant menuPos == Min(j, menu.Length)
        invariant symbolPos == Min(j, |symbols|)
        invariant Valid()
        invariant 0 < spaceWidth || symbolPos == 0
        invariant forall i :: 0 <= i < |symbols| ==>
          shown[i] == if i < symbolPos then Some(quotes[i]) else old(shown[i])
        invariant forall i :: symbolPos <= i < menu.Length ==> menu[i] == old(menu[i])
      {
        // the symbol position advances only when the menu position did
        var movedMenu := false;
        var movedSymbol := false;
        if menuPos < menu.Length {
          menuPos, movedMenu := menuPos + 1, true;
        }
        if movedMenu && symbolPos < |symbols| {
          symbolPos, movedSymbol := symbolPos + 1, true;
        }
        if movedMenu && movedSymbol {
          var relabelled := Relabel(symbolPos - 1, quotes[j]);
          if relabelled.Fail? {
            // the exception ends the update; it can only be the first row
            assert shown == old(shown);
            assert menu[..] == old(menu[..]);
            return relabelled;
          }
        } else {
          assert |symbols| <= j;
        }
        j := j + 1;
      }
      outcome := Pass;
      QuotedRowsShowLabels(menu[..], symbols, shown, maxWidth, spaceWidth, measure, quotes);
    }

    /** The body of Update's loop for one row: measure the symbol, format its
        label against the quote and assign it to the row. */
    method Relabel(row: nat, q: Quote) returns (outcome: Outcome)
      requires Valid() && row < |symbols|
      modifies this`shown, menu
      ensures Valid()
      ensures outcome.Fail? <==> spaceWidth == 0
      ensures outcome.Fail? ==> outcome.error == DivideByZero && unchanged(this`shown) && unchanged(menu)
      ensures outcome.Pass? ==> shown[row] == Some(q)
      ensures outcome.Pass? ==> forall i :: 0 <= i < |shown| && i != row ==> shown[i] == old(shown[i])
      ensures outcome.Pass? ==> forall i :: 0 <= i < menu.Length && i != row ==> menu[i] == old(menu[i])
      ensures outcome.Pass? ==> (menu[row].QuoteItem? &&
        FormatRow(symbols[row], measure(symbols[row]), maxWidth, spaceWidth, q) == Success(menu[row].text))
    {
      var symbol := symbols[row];
      var curWidth := measure(symbol);
      var text := FormatRow(symbol, curWidth, maxWidth, spaceWidth, q);
      FormatRowLayout(symbol, curWidth, maxWidth, spaceWidth, q);
      if text.Failure? {
        return Fail(text.error);
      }
      RelabelKeepsMenu(menu[..], symbols, shown, maxWidth, spaceWidth, measure, row, text.value, q);
      menu[row] := QuoteItem(text.value);
      shown := shown[row := Some(q)];
      outcome := Pass;
    }

    /** GetSymbolFromMenuItem on the row the user activated (the chart lookup
        that follows is not modelled). A row shows its symbol back, for a
        symbol without the pad glyph, exactly when a quote has been applied to
        it; a row still showing "symbol:???" makes the parse throw. */
    method SelectedSymbol(row: nat) returns (r: Result<string>)
      requires Valid() && row < |symbols|
      ensures menu[row].QuoteItem? && r == SymbolFromLabel(menu[row].text)
      ensures PAD_CHAR !in symbols[row] ==> (r == Success(symbols[row]) <==> shown[row].Some?)
      ensures PAD_CHAR !in symbols[row] && shown[row].None? ==> r == Failure(ArgumentOutOfRange)
    {
      var symbol := symbols[row];
      assert measure(symbol) <= maxWidth;
      assert RowShows(menu[row], symbol, shown[row], maxWidth, spaceWidth, measure);
      r := SymbolFromLabel(menu[row].text);
      match shown[row]
      case None =>
        InitialLabelParse(symbol);
      case Some(q) =>
        if PAD_CHAR !in symbol {
          RoundTrip(symbol, measure(symbol), maxWidth, spaceWidth, q);
        }
    }
  }
}
