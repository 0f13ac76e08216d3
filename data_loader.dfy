/**
 * The per-cell text normalisers of the loader and the binding of each CSV
 * column to one of them. Reading files and parsing timestamps are not part of
 * this model: a table arrives as a sequence of raw rows whose cells are text.
 */
module DataLoader {
  import opened Wrappers
  import opened Text
  import opened Decimal
  import opened Records

  /** A CSV cell as pandas hands it over: `None` is a missing value (NaN). */
  type Cell = Option<string>

  /** The exception `float()` raises on text it cannot read. */
  datatype ParseError = ValueError

  /** `x` times the factor a magnitude suffix stands for: `M` a million, `K` a thousand. */
  function Scale(x: real, suffix: char): real {
    if suffix == 'M' then x * 1000000.0 else x * 1000.0
  }

  /** `float(v[:-1]) * factor`: the prefix before the suffix must be a number, otherwise `float` raises. */
  function ScaledPrefix(v: string, suffix: char): Result<real, ParseError>
    requires |v| > 0
  {
    match ParseFloat(v[..|v| - 1])
    case Some(x) => Ok(Scale(x, suffix))
    case None => Err(ValueError)
  }

  /**
   * The common tail of the currency and volume parsers, on the already
   * cleaned text `v`: a trailing `M` (checked first) or `K` scales the number
   * before it and has no fallback; without a suffix, unreadable text is 0.0.
   */
  function SuffixedValue(v: string): Result<real, ParseError> {
    if EndsWith(v, 'M') then ScaledPrefix(v, 'M')
    else if EndsWith(v, 'K') then ScaledPrefix(v, 'K')
    else Ok(ParseFloat(v).GetOr(0.0))
  }

  /** What the currency parser interprets: the text without `$` and `,`, stripped. */
  function CurrencyText(s: string): string {
    Strip(RemoveChar(RemoveChar(s, '$'), ','))
  }

  /** `DataLoader._parse_currency_value`: a missing cell is 0.0, otherwise the cleaned text is read with its suffix. */
  function ParseCurrencyValue(cell: Cell): (r: Result<real, ParseError>)
    ensures cell.None? ==> r == Ok(0.0)
  {
    match cell
    case None => Ok(0.0)
    case Some(s) => SuffixedValue(CurrencyText(s))
  }

  /** What the percentage parser interprets: the text without `%`, `+`, `$` and `,`, stripped. */
  function PercentageText(s: string): string {
    Strip(RemoveChar(RemoveChar(RemoveChar(RemoveChar(s, '%'), '+'), '$'), ','))
  }

  /**
   * The `parse_percentage` helper of `load_crypto_data`. It is total: the
   * result type has no error, and a missing cell or unreadable text is 0.0.
   */
  function ParsePercentage(cell: Cell): (r: real)
    ensures cell.None? ==> r == 0.0
  {
    match cell
    case None => 0.0
    case Some(s) => ParseFloat(PercentageText(s)).GetOr(0.0)
  }

  /**
   * The `parse_volume` helper of `load_stock_data`: like the currency parser,
   * but only whitespace is stripped, so `$` and `,` stay in the text.
   */
  function ParseVolume(cell: Cell): (r: Result<real, ParseError>)
    ensures cell.None? ==> r == Ok(0.0)
  {
    match cell
    case None => Ok(0.0)
    case Some(s) => SuffixedValue(Strip(s))
  }

  /**
   * The stock `chg_%` conversion: `%` and `+` are removed and the rest goes
   * to `float`, which raises on unreadable text; there is no zero fallback.
   */
  function ParseChangePercent(s: string): (r: Result<real, ParseError>)
    ensures r.Ok? ==> r.value == ParsePercentage(Some(s))
  {
    match ParseFloat(RemoveChar(RemoveChar(s, '%'), '+'))
    case Some(x) =>
      StrictAgreesWithLenient(s);
      Ok(x)
    case None => Err(ValueError)
  }

  /**
   * Where the `chg_%` conversion reads a number, the percentage parser reads
   * the same one: text `float()` accepts has no `$` or `,` left to remove.
   */
  lemma StrictAgreesWithLenient(s: string)
    requires ParseFloat(RemoveChar(RemoveChar(s, '%'), '+')).Some?
    ensures ParsePercentage(Some(s)) == ParseFloat(RemoveChar(RemoveChar(s, '%'), '+')).value
  {
    var t := RemoveChar(RemoveChar(s, '%'), '+');
    NoSymbolsToRemove(t);
    calc {
      ParsePercentage(Some(s));
      ParseFloat(PercentageText(s)).GetOr(0.0);
      ParseFloat(Strip(t)).GetOr(0.0);
      { FloatOfStripped(t); }
      ParseFloat(t).value;
    }
  }

  /** Removing `$` and `,` leaves text that `float()` accepts as it is. */
  lemma NoSymbolsToRemove(t: string)
    requires ParseFloat(t).Some?
    ensures RemoveChar(RemoveChar(t, '$'), ',') == t
  {
    FloatOmits(t, '$');
    RemoveCharAbsent(t, '$');
    FloatOmits(t, ',');
    RemoveCharAbsent(t, ',');
  }

  // ---------------------------------------------------------------------------
  // Properties of the parsers
  // ---------------------------------------------------------------------------

  /** A literal of the grammar is non-empty text without whitespace. */
  lemma LiteralUnspaced(l: Literal)
    requires WellFormed(l)
    ensures Render(l) != [] && forall k | 0 <= k < |Render(l)| :: !IsSpace(Render(l)[k])
  {
    RenderAlphabet(l);
    assert |Unsigned(l)| > 0;
  }

  /** A literal of the grammar holds none of the symbols the parsers remove. */
  lemma LiteralUnsymbolled(l: Literal)
    requires WellFormed(l)
    ensures '$' !in Render(l) && ',' !in Render(l) && '%' !in Render(l)
  {
    RenderAlphabet(l);
  }

  /** A literal of the grammar ends in neither magnitude suffix. */
  lemma LiteralUnsuffixed(l: Literal)
    requires WellFormed(l)
    ensures !EndsWith(Render(l), 'M') && !EndsWith(Render(l), 'K')
  {
    RenderAlphabet(l);
  }

  /** A literal's digits and point hold no `+`. */
  lemma UnsignedNoPlus(l: Literal)
    requires WellFormed(l)
    ensures '+' !in Unsigned(l)
  {
    UnsignedAlphabet(l);
  }

  /** Removing `+` from a literal with a `+` sign leaves its digits and point. */
  lemma PlusSignRemoved(l: Literal)
    requires WellFormed(l) && l.sign == Plus
    ensures RemoveChar(Render(l), '+') == Unsigned(l)
  {
    UnsignedNoPlus(l);
    assert Render(l) == "+" + Unsigned(l);
    RemoveCharAppend("+", Unsigned(l), '+');
    assert RemoveChar("+", '+') == [];
    RemoveCharAbsent(Unsigned(l), '+');
  }

  /** A literal without a `+` sign has no `+` to remove. */
  lemma NoPlusSign(l: Literal)
    requires WellFormed(l) && l.sign != Plus
    ensures RemoveChar(Render(l), '+') == Render(l)
  {
    UnsignedNoPlus(l);
    assert Render(l) == SignText(l.sign) + Unsigned(l);
    assert '+' !in SignText(l.sign);
    RemoveCharAppend(SignText(l.sign), Unsigned(l), '+');
    RemoveCharAbsent(SignText(l.sign), '+');
    RemoveCharAbsent(Unsigned(l), '+');
  }

  /** A `+` sign is dropped, and the value stays the same. */
  lemma DropPlus(l: Literal) returns (l': Literal)
    requires WellFormed(l)
    ensures WellFormed(l') && Value(l') == Value(l)
    ensures RemoveChar(Render(l), '+') == Render(l')
  {
    if l.sign == Plus {
      l' := l.(sign := NoSign);
      PlusSignRemoved(l);
      assert Render(l') == Unsigned(l);
    } else {
      l' := l;
      NoPlusSign(l);
    }
  }

  /** Text with no `$`, `,` or whitespace is what the currency parser cleans it to. */
  lemma CurrencyTextClean(s: string)
    requires '$' !in s && ',' !in s
    requires forall k | 0 <= k < |s| :: !IsSpace(s[k])
    ensures CurrencyText(s) == s
  {
    RemoveCharAbsent(s, '$');
    RemoveCharAbsent(s, ',');
  }

  /** A leading `$` is dropped from otherwise clean text. */
  lemma DollarText(p: string)
    requires '$' !in p && ',' !in p
    requires forall k | 0 <= k < |p| :: !IsSpace(p[k])
    ensures CurrencyText("$" + p) == p
  {
    assert RemoveChar("$" + p, '$') == p by {
      RemoveCharAppend("$", p, '$');
      assert RemoveChar("$", '$') == [];
      RemoveCharAbsent(p, '$');
    }
    RemoveCharAbsent(p, ',');
  }

  /** A suffixed value without whitespace: the number before the suffix, scaled, or a raised error. */
  lemma SuffixedScaled(p: string, suffix: char)
    requires suffix == 'M' || suffix == 'K'
    requires forall k | 0 <= k < |p| :: !IsSpace(p[k])
    ensures SuffixedValue(p + [suffix]) ==
              match ParseDecimal(p)
              case Some(x) => Ok(Scale(x, suffix))
              case None => Err(ValueError)
  {
    var s := p + [suffix];
    assert s[..|s| - 1] == p;
    TrimUnpadded(p);
  }

  /** A value without suffix or whitespace: the number it spells, or 0.0. */
  lemma SuffixedFallback(v: string)
    requires forall k | 0 <= k < |v| :: !IsSpace(v[k])
    requires !EndsWith(v, 'M') && !EndsWith(v, 'K')
    ensures SuffixedValue(v) == Ok(ParseDecimal(v).GetOr(0.0))
  {
    TrimUnpadded(v);
  }

  /**
   * Currency with a magnitude suffix: `p` followed by `M` or `K` is the number
   * `p` spells times a million or a thousand, and raises when `p` is not a
   * number (`"M"`, `"abcK"`); there is no fallback to 0.0 on this path.
   */
  lemma CurrencySuffix(p: string, suffix: char)
    requires suffix == 'M' || suffix == 'K'
    requires '$' !in p && ',' !in p
    requires forall k | 0 <= k < |p| :: !IsSpace(p[k])
    ensures ParseCurrencyValue(Some(p + [suffix])) ==
              match ParseDecimal(p)
              case Some(x) => Ok(Scale(x, suffix))
              case None => Err(ValueError)
  {
    CurrencyTextClean(p + [suffix]);
    SuffixedScaled(p, suffix);
  }

  /** Currency without a suffix: the number the text spells, or 0.0 for anything unreadable. */
  lemma CurrencyFallback(s: string)
    requires '$' !in s && ',' !in s
    requires forall k | 0 <= k < |s| :: !IsSpace(s[k])
    requires !EndsWith(s, 'M') && !EndsWith(s, 'K')
    ensures ParseCurrencyValue(Some(s)) == Ok(ParseDecimal(s).GetOr(0.0))
  {
    CurrencyTextClean(s);
    SuffixedFallback(s);
  }

  /** Currency: `$` and `,` anywhere and surrounding whitespace are ignored, so only the cleaned text matters. */
  lemma CurrencyIgnoresSymbols(s: string)
    ensures ParseCurrencyValue(Some(s)) == ParseCurrencyValue(Some(CurrencyText(s)))
  {
    var v := CurrencyText(s);
    var x := RemoveChar(RemoveChar(s, '$'), ',');
    RemoveCharCommute(s, '$', ',');
    assert '$' !in x && ',' !in x;
    StripOmits(x, '$');
    StripOmits(x, ',');
    RemoveCharAbsent(v, '$');
    RemoveCharAbsent(v, ',');
    StripUnpadded(v);
    assert CurrencyText(v) == v;
  }

  /** A literal written with a leading `$` reads as its value through the currency parser. */
  lemma CurrencyOfLiteral(l: Literal)
    requires WellFormed(l)
    ensures ParseCurrencyValue(Some("$" + Render(l))) == Ok(Value(l))
  {
    var r := Render(l);
    LiteralUnspaced(l);
    LiteralUnsymbolled(l);
    LiteralUnsuffixed(l);
    DollarText(r);
    SuffixedFallback(r);
    ParseRender(l);
  }

  /** A literal followed by a magnitude suffix is still clean text. */
  lemma ScaledIsClean(l: Literal, suffix: char)
    requires WellFormed(l)
    requires suffix == 'M' || suffix == 'K'
    ensures var p := Render(l) + [suffix];
            '$' !in p && ',' !in p && forall k | 0 <= k < |p| :: !IsSpace(p[k])
  {
    LiteralUnspaced(l);
    LiteralUnsymbolled(l);
    var r := Render(l);
    var p := r + [suffix];
    assert forall k | 0 <= k < |r| :: p[k] == r[k];
  }

  /** A suffixed number without whitespace is that number scaled. */
  lemma SuffixedNumber(p: string, suffix: char, x: real)
    requires suffix == 'M' || suffix == 'K'
    requires forall k | 0 <= k < |p| :: !IsSpace(p[k])
    requires ParseDecimal(p) == Some(x)
    ensures SuffixedValue(p + [suffix]) == Ok(Scale(x, suffix))
  {
    SuffixedScaled(p, suffix);
  }

  /** A literal with a magnitude suffix, once cleaned, is its value scaled. */
  lemma SuffixedLiteral(l: Literal, suffix: char)
    requires WellFormed(l)
    requires suffix == 'M' || suffix == 'K'
    ensures SuffixedValue(Render(l) + [suffix]) == Ok(Scale(Value(l), suffix))
  {
    ParseRender(l);
    LiteralUnspaced(l);
    SuffixedNumber(Render(l), suffix, Value(l));
  }

  /** A literal written with a leading `$` and an `M` or `K` suffix reads as its value scaled. */
  lemma CurrencyOfScaledLiteral(l: Literal, suffix: char)
    requires WellFormed(l)
    requires suffix == 'M' || suffix == 'K'
    ensures ParseCurrencyValue(Some("$" + Render(l) + [suffix])) == Ok(Scale(Value(l), suffix))
  {
    var p := Render(l) + [suffix];
    assert "$" + Render(l) + [suffix] == "$" + p;
    ScaledIsClean(l, suffix);
    DollarText(p);
    SuffixedLiteral(l, suffix);
  }

  /** The currency parser looks at nothing but the cleaned text. */
  lemma CurrencyByText(s: string, t: string)
    requires CurrencyText(s) == CurrencyText(t)
    ensures ParseCurrencyValue(Some(s)) == ParseCurrencyValue(Some(t))
  {
  }

  lemma CommaRemoved(a: string, b: string)
    ensures RemoveChar(a + "," + b, ',') == RemoveChar(a + b, ',')
  {
    RemoveCharAppend(a, ",", ',');
    assert RemoveChar(a + ",", ',') == RemoveChar(a, ',') by {
      assert RemoveChar(",", ',') == [];
    }
    RemoveCharAppend(a + ",", b, ',');
    RemoveCharAppend(a, b, ',');
  }

  lemma CommaText(a: string, b: string)
    ensures CurrencyText(a + "," + b) == CurrencyText(a + b)
  {
    var s := a + "," + b;
    CommaRemoved(a, b);
    RemoveCharCommute(s, '$', ',');
    RemoveCharCommute(a + b, '$', ',');
  }

  /** Currency: a `,` anywhere is dropped, as if it had not been written. */
  lemma CurrencyIgnoresComma(a: string, b: string)
    ensures ParseCurrencyValue(Some(a + "," + b)) == ParseCurrencyValue(Some(a + b))
  {
    CommaText(a, b);
    CurrencyByText(a + "," + b, a + b);
  }

  /** A `%` written after text without one is dropped again. */
  lemma DropPercent(r: string)
    requires '%' !in r
    ensures RemoveChar(r + "%", '%') == r
  {
    RemoveCharAppend(r, "%", '%');
    RemoveCharAbsent(r, '%');
    assert RemoveChar("%", '%') == [];
  }

  /** `float()` reads the text of a literal as its value. */
  lemma ParseFloatOfLiteral(l: Literal)
    requires WellFormed(l)
    ensures ParseFloat(Render(l)) == Some(Value(l))
  {
    LiteralUnspaced(l);
    TrimUnpadded(Render(l));
    ParseRender(l);
  }

  /** A literal followed by `%` loses the `%` and any `+` sign to the `chg_%` conversion. */
  lemma SignsDropped(l: Literal) returns (l': Literal)
    requires WellFormed(l)
    ensures WellFormed(l') && Value(l') == Value(l)
    ensures RemoveChar(RemoveChar(Render(l) + "%", '%'), '+') == Render(l')
  {
    LiteralUnsymbolled(l);
    DropPercent(Render(l));
    l' := DropPlus(l);
  }

  /** The percentage parser cleans a literal followed by `%` to the literal without a `+` sign. */
  lemma PercentageTextOfLiteral(l: Literal) returns (l': Literal)
    requires WellFormed(l)
    ensures WellFormed(l') && Value(l') == Value(l)
    ensures PercentageText(Render(l) + "%") == Strip(Render(l'))
  {
    l' := SignsDropped(l);
    LiteralUnsymbolled(l');
    RemoveCharAbsent(Render(l'), '$');
    RemoveCharAbsent(Render(l'), ',');
  }

  /** Percentage: a literal followed by `%` reads as its value; a `-` sign survives, a `+` sign is dropped. */
  lemma PercentageOfLiteral(l: Literal)
    requires WellFormed(l)
    ensures ParsePercentage(Some(Render(l) + "%")) == Value(l)
  {
    var l' := PercentageTextOfLiteral(l);
    LiteralUnspaced(l');
    StripUnpadded(Render(l'));
    ParseFloatOfLiteral(l');
  }

  /** Percentage: removing a `%`, `+`, `$` or `,` anywhere in the text does not change the result. */
  lemma PercentageIgnoresSymbol(s: string, c: char)
    requires c == '%' || c == '+' || c == '$' || c == ','
    ensures ParsePercentage(Some(RemoveChar(s, c))) == ParsePercentage(Some(s))
  {
    var a := RemoveChar(s, '%');
    var b := RemoveChar(a, '+');
    var d := RemoveChar(b, '$');
    var e := RemoveChar(d, ',');
    assert PercentageText(s) == Strip(e);
    var t := RemoveChar(s, c);
    if c == '%' {
      RemoveCharIdempotent(s, '%');
    } else if c == '+' {
      RemoveCharCommute(s, '+', '%');
      RemoveCharIdempotent(a, '+');
    } else if c == '$' {
      RemoveCharCommute(s, '$', '%');
      RemoveCharCommute(a, '$', '+');
      RemoveCharIdempotent(b, '$');
    } else {
      RemoveCharCommute(s, ',', '%');
      RemoveCharCommute(a, ',', '+');
      RemoveCharCommute(b, ',', '$');
      RemoveCharIdempotent(d, ',');
    }
    assert PercentageText(t) == PercentageText(s);
  }

  /** Volume with a suffix: the number before `M`/`K` scaled, or a raised error when it is not a number. */
  lemma VolumeSuffix(p: string, suffix: char)
    requires suffix == 'M' || suffix == 'K'
    requires forall k | 0 <= k < |p| :: !IsSpace(p[k])
    ensures ParseVolume(Some(p + [suffix])) ==
              match ParseDecimal(p)
              case Some(x) => Ok(Scale(x, suffix))
              case None => Err(ValueError)
  {
    var s := p + [suffix];
    assert forall k | 0 <= k < |p| :: s[k] == p[k];
    StripUnpadded(s);
    SuffixedScaled(p, suffix);
  }

  /** Volume text without surrounding whitespace goes to the suffix rule as it is. */
  lemma VolumeOfUnpadded(s: string)
    requires Strip(s) == s
    ensures ParseVolume(Some(s)) == SuffixedValue(s)
  {
  }

  /** Volume without a suffix: the number the text spells, or 0.0 for anything unreadable, `$` and `,` included. */
  lemma VolumeFallback(s: string)
    requires forall k | 0 <= k < |s| :: !IsSpace(s[k])
    requires !EndsWith(s, 'M') && !EndsWith(s, 'K')
    ensures ParseVolume(Some(s)) == Ok(ParseDecimal(s).GetOr(0.0))
  {
    StripUnpadded(s);
    VolumeOfUnpadded(s);
    SuffixedFallback(s);
  }

  /** A literal with a magnitude suffix has no whitespace to strip. */
  lemma ScaledUnpadded(l: Literal, suffix: char)
    requires WellFormed(l)
    requires suffix == 'M' || suffix == 'K'
    ensures Strip(Render(l) + [suffix]) == Render(l) + [suffix]
  {
    ScaledIsClean(l, suffix);
    StripUnpadded(Render(l) + [suffix]);
  }

  /** Volume: a literal with an `M` or `K` suffix is its value scaled by a million or a thousand. */
  lemma VolumeOfLiteral(l: Literal, suffix: char)
    requires WellFormed(l)
    requires suffix == 'M' || suffix == 'K'
    ensures ParseVolume(Some(Render(l) + [suffix])) == Ok(Scale(Value(l), suffix))
  {
    ScaledUnpadded(l, suffix);
    VolumeOfUnpadded(Render(l) + [suffix]);
    SuffixedLiteral(l, suffix);
  }

  /**
   * Volume strips only whitespace: text with a `$` or `,` never yields a
   * number; it is 0.0 without a suffix and raises with one.
   */
  lemma VolumeRejectsCurrencySymbols(s: string, k: nat)
    requires k < |s| && (s[k] == '$' || s[k] == ',')
    ensures ParseVolume(Some(s)) == Ok(0.0) || ParseVolume(Some(s)).Err?
  {
    var v := Strip(s);
    StripKeeps(s, k);
    var i :| 0 <= i < |v| && v[i] == s[k];
    if EndsWith(v, 'M') || EndsWith(v, 'K') {
      var p := v[..|v| - 1];
      assert p[i] == s[k];
      FloatRejectsForeign(p, i);
    } else {
      FloatRejectsForeign(v, i);
    }
  }

  /** `chg_%`: a literal followed by `%` reads as its value. */
  lemma ChangePercentOfLiteral(l: Literal)
    requires WellFormed(l)
    ensures ParseChangePercent(Render(l) + "%") == Ok(Value(l))
  {
    var l' := SignsDropped(l);
    ParseFloatOfLiteral(l');
  }

  /** A character other than `c` and `d` survives their removal. */
  lemma KeptThroughTwo(s: string, k: nat, c: char, d: char) returns (i: nat)
    requires k < |s| && s[k] != c && s[k] != d
    ensures i < |RemoveChar(RemoveChar(s, c), d)| && RemoveChar(RemoveChar(s, c), d)[i] == s[k]
  {
    RemoveCharKeeps(s, c, s[k]);
    RemoveCharKeeps(RemoveChar(s, c), d, s[k]);
    var a := RemoveChar(RemoveChar(s, c), d);
    i :| 0 <= i < |a| && a[i] == s[k];
  }

  /**
   * A lower-case letter that no text Python's `float()` accepts contains:
   * none of the letters of `inf`, `infinity`, `nan` or the exponent `e`.
   */
  predicate ForeignLetter(c: char) {
    'a' <= c <= 'z' && c !in "aefinty"
  }

  /** A character that survives stripping and makes the number unreadable. */
  lemma StrippedUnreadable(a: string, i: nat)
    requires i < |a| && ForeignLetter(a[i])
    ensures ParseFloat(a) == None && ParseFloat(Strip(a)) == None
  {
    FloatRejectsForeign(a, i);
    StripKeeps(a, i);
    var w := Strip(a);
    var j :| 0 <= j < |w| && w[j] == a[i];
    FloatRejectsForeign(w, j);
  }

  /** Text with a letter no `float()` literal contains reads as 0.0 through the percentage parser. */
  lemma PercentageRejectsLetter(s: string, k: nat)
    requires k < |s| && ForeignLetter(s[k])
    ensures ParsePercentage(Some(s)) == 0.0
  {
    var i := KeptThroughTwo(s, k, '%', '+');
    var a := RemoveChar(RemoveChar(s, '%'), '+');
    var j := KeptThroughTwo(a, i, '$', ',');
    var e := RemoveChar(RemoveChar(a, '$'), ',');
    StrippedUnreadable(e, j);
    assert PercentageText(s) == Strip(e);
  }

  /** Text with a letter no `float()` literal contains makes the `chg_%` conversion raise. */
  lemma ChangePercentRejectsLetter(s: string, k: nat)
    requires k < |s| && ForeignLetter(s[k])
    ensures ParseChangePercent(s).Err?
  {
    var i := KeptThroughTwo(s, k, '%', '+');
    StrippedUnreadable(RemoveChar(RemoveChar(s, '%'), '+'), i);
  }

  /**
   * The two percentage policies differ on text with a letter no `float()`
   * literal contains (`"unch"`):
   * the crypto parser falls back to 0.0, the stock `chg_%` conversion raises.
   */
  lemma PercentPoliciesDiffer(s: string, k: nat)
    requires k < |s| && ForeignLetter(s[k])
    ensures ParsePercentage(Some(s)) == 0.0
    ensures ParseChangePercent(s).Err?
  {
    PercentageRejectsLetter(s, k);
    ChangePercentRejectsLetter(s, k);
  }

  // ---------------------------------------------------------------------------
  // Examples from the unit tests
  // ---------------------------------------------------------------------------

  /** `"$100.00"` is 100.0. */
  lemma CurrencyExampleHundred()
    ensures ParseCurrencyValue(Some("$100.00")) == Ok(100.0)
  {
    var l := Literal(NoSign, "100", true, "00");
    assert "100"[..2] == "10" && "10"[..1] == "1" && "1"[..0] == "";
    assert "00"[1..] == "0" && "0"[1..] == "";
    assert Value(l) == 100.0;
    assert "$" + Render(l) == "$100.00";
    CurrencyOfLiteral(l);
  }

  /** The literal `1234.56`. */
  lemma LiteralThousands() returns (l: Literal)
    ensures WellFormed(l) && Render(l) == "1234.56" && Value(l) == 1234.56
  {
    l := Literal(NoSign, "1234", true, "56");
    assert "1234"[..3] == "123" && "123"[..2] == "12" && "12"[..1] == "1" && "1"[..0] == "";
    assert "56"[1..] == "6" && "6"[1..] == "";
  }

  /** A `$`-literal with a `,` written into it still reads as its value. */
  lemma CurrencyOfSeparatedLiteral(l: Literal, a: string, b: string)
    requires WellFormed(l) && a + b == "$" + Render(l)
    ensures ParseCurrencyValue(Some(a + "," + b)) == Ok(Value(l))
  {
    CurrencyIgnoresComma(a, b);
    CurrencyOfLiteral(l);
  }

  /** `"$1,234.56"` is 1234.56: the thousands separator is dropped. */
  lemma CurrencyExampleThousands()
    ensures ParseCurrencyValue(Some("$1,234.56")) == Ok(1234.56)
  {
    var l := LiteralThousands();
    assert "$1,234.56" == "$1" + "," + "234.56";
    assert "$1" + "234.56" == "$" + Render(l);
    CurrencyOfSeparatedLiteral(l, "$1", "234.56");
  }

  /** `"$10.5M"` is 10500000.0. */
  lemma CurrencyExampleMillions()
    ensures ParseCurrencyValue(Some("$10.5M")) == Ok(10500000.0)
  {
    var l := Literal(NoSign, "10", true, "5");
    assert "10"[..1] == "1" && "1"[..0] == "" && "5"[1..] == "";
    assert Value(l) == 10.5;
    assert "$" + Render(l) + ['M'] == "$10.5M";
    CurrencyOfScaledLiteral(l, 'M');
  }

  /** `"$250K"` is 250000.0. */
  lemma CurrencyExampleKilo()
    ensures ParseCurrencyValue(Some("$250K")) == Ok(250000.0)
  {
    var l := Literal(NoSign, "250", false, "");
    assert "250"[..2] == "25" && "25"[..1] == "2" && "2"[..0] == "";
    assert Value(l) == 250.0;
    assert "$" + Render(l) + ['K'] == "$250K";
    CurrencyOfScaledLiteral(l, 'K');
  }

  /**
   * A lower-case word has no suffix; with a letter no `float()` literal
   * contains, it is no number either, so it reads as 0.0.
   */
  lemma CurrencyOfWord(s: string, k: nat)
    requires forall j | 0 <= j < |s| :: 'a' <= s[j] <= 'z'
    requires k < |s| && ForeignLetter(s[k])
    ensures ParseCurrencyValue(Some(s)) == Ok(0.0)
  {
    ParseRejectsForeign(s, k);
    CurrencyFallback(s);
  }

  /** `"garbage"` has no suffix and falls back to 0.0. */
  lemma CurrencyExampleGarbage()
    ensures ParseCurrencyValue(Some("garbage")) == Ok(0.0)
  {
    CurrencyOfWord("garbage", 0);
  }

  /** `"M"` raises: nothing precedes the suffix. */
  lemma CurrencyExampleBareSuffix()
    ensures ParseCurrencyValue(Some("M")).Err?
  {
    assert "M" == "" + ['M'];
    CurrencySuffix("", 'M');
  }

  /** `"abcK"` raises: the prefix is not a number. */
  lemma CurrencyExampleWordSuffix()
    ensures ParseCurrencyValue(Some("abcK")).Err?
  {
    assert "abcK" == "abc" + ['K'];
    ParseRejectsForeign("abc", 0);
    CurrencySuffix("abc", 'K');
  }

  /** The prefix `"5\x1c"` of `"5\x1cM"` goes to `float()`, which does not skip `\x1c` and raises. */
  lemma SeparatorSuffixRaises()
    ensures SuffixedValue("5\U{001C}M").Err?
  {
    var s := "5\U{001C}M";
    assert s[..|s| - 1] == "5\U{001C}";
    FloatRejectsForeign("5\U{001C}", 1);
  }

  /** `"5\x1cM"`: `str.strip()` keeps the inner separator, so the currency parser raises. */
  lemma CurrencyExampleSeparatorSuffix()
    ensures ParseCurrencyValue(Some("5\U{001C}M")).Err?
  {
    SeparatorTextClean();
    SeparatorSuffixRaises();
  }

  lemma SeparatorTextClean()
    ensures CurrencyText("5\U{001C}M") == "5\U{001C}M"
  {
    var s := "5\U{001C}M";
    assert '$' !in s && ',' !in s;
    RemoveCharAbsent(s, '$');
    RemoveCharAbsent(s, ',');
    StripUnpadded(s);
  }

  /** `"5\x1cM"` raises in the volume parser for the same reason. */
  lemma VolumeExampleSeparatorSuffix()
    ensures ParseVolume(Some("5\U{001C}M")).Err?
  {
    StripUnpadded("5\U{001C}M");
    SeparatorSuffixRaises();
  }

  /** `"\x1c5%"`: nothing strips the `chg_%` text, and `float()` raises on the separator. */
  lemma ChangePercentExampleSeparator()
    ensures ParseChangePercent("\U{001C}5%").Err?
  {
    var r := "\U{001C}5";
    DropPercent(r);
    assert r + "%" == "\U{001C}5%";
    RemoveCharAbsent(r, '+');
    FloatRejectsForeign(r, 0);
  }

  // ---------------------------------------------------------------------------
  // Column binding
  // ---------------------------------------------------------------------------

  /** A row of the cryptocurrency CSV as read, before normalisation. */
  datatype RawCryptoRow = RawCryptoRow(
    timestamp: string, name: string, symbol: string,
    priceUsd: Cell, vol24h: Cell, chg24h: Cell, chg7d: Cell, marketCap: Cell)

  /**
   * A row of the stock CSV as read. `last`, `high`, `low` and `chg_` are
   * columns pandas already reads as numbers; `chg_%` is text.
   */
  datatype RawStockRow = RawStockRow(
    timestamp: string, name: Option<string>,
    last: real, high: real, low: real, chg: real, chgPct: string, vol: Cell)

  /**
   * The shape of a crypto row load, for any pair of cell converters: the three
   * currency columns go through `currency`, in column order, and the first one
   * that raises makes the row raise; the percentage columns go through
   * `percentage`, which cannot raise.
   */
  function CryptoRowWith(raw: RawCryptoRow, currency: Cell -> Result<real, ParseError>,
                         percentage: Cell -> real): (r: Result<CryptoRecord, ParseError>)
    ensures r.Err? <==> currency(raw.priceUsd).Err? || currency(raw.vol24h).Err? || currency(raw.marketCap).Err?
    ensures r.Ok? ==> r.value == CryptoRecord(raw.timestamp, raw.name, raw.symbol,
                                              currency(raw.priceUsd).value, currency(raw.vol24h).value,
                                              percentage(raw.chg24h), percentage(raw.chg7d),
                                              currency(raw.marketCap).value)
  {
    var price :- currency(raw.priceUsd);
    var vol :- currency(raw.vol24h);
    var cap :- currency(raw.marketCap);
    Ok(CryptoRecord(raw.timestamp, raw.name, raw.symbol, price, vol,
                    percentage(raw.chg24h), percentage(raw.chg7d), cap))
  }

  /**
   * `load_crypto_data` on one row: `price_usd`, `vol_24h` and `market_cap` go
   * through the currency parser, `chg_24h` and `chg_7d` through the percentage
   * parser; the text columns pass through unchanged.
   */
  function LoadCryptoRow(raw: RawCryptoRow): (r: Result<CryptoRecord, ParseError>)
    ensures r.Err? <==>
              ParseCurrencyValue(raw.priceUsd).Err? || ParseCurrencyValue(raw.vol24h).Err? ||
              ParseCurrencyValue(raw.marketCap).Err?
    ensures r.Ok? ==>
              r.value == CryptoRecord(raw.timestamp, raw.name, raw.symbol,
                                      ParseCurrencyValue(raw.priceUsd).value,
                                      ParseCurrencyValue(raw.vol24h).value,
                                      ParsePercentage(raw.chg24h),
                                      ParsePercentage(raw.chg7d),
                                      ParseCurrencyValue(raw.marketCap).value)
  {
    CryptoRowWith(raw, ParseCurrencyValue, ParsePercentage)
  }

  /**
   * The shape of a stock row load, for any pair of converters: the volume goes
   * through `volume`, then `chg_%` through `change`; the first that raises
   * makes the row raise.
   */
  function StockRowWith(raw: RawStockRow, volume: Cell -> Result<real, ParseError>,
                        change: string -> Result<real, ParseError>): (r: Result<StockRecord, ParseError>)
    ensures r.Err? <==> volume(raw.vol).Err? || change(raw.chgPct).Err?
    ensures r.Ok? ==> r.value == StockRecord(raw.timestamp, raw.name, raw.last, raw.high, raw.low, raw.chg,
                                             change(raw.chgPct).value, volume(raw.vol).value, None)
  {
    var vol :- volume(raw.vol);
    var pct :- change(raw.chgPct);
    Ok(StockRecord(raw.timestamp, raw.name, raw.last, raw.high, raw.low, raw.chg, pct, vol, None))
  }

  /**
   * `load_stock_data` on one row: `vol_` goes through the volume parser and
   * `chg_%` through the `chg_%` conversion; the other columns pass through and
   * the volatility column is absent.
   */
  function LoadStockRow(raw: RawStockRow): (r: Result<StockRecord, ParseError>)
    ensures r.Err? <==> ParseVolume(raw.vol).Err? || ParseChangePercent(raw.chgPct).Err?
    ensures r.Ok? ==>
              r.value == StockRecord(raw.timestamp, raw.name, raw.last, raw.high, raw.low, raw.chg,
                                     ParseChangePercent(raw.chgPct).value, ParseVolume(raw.vol).value, None)
  {
    StockRowWith(raw, ParseVolume, ParseChangePercent)
  }

  /**
   * A whole table loaded row by row, as pandas applies a converter down each
   * column: it raises when any row does, and otherwise keeps every row, in
   * file order.
   */
  function LoadAll<R, T>(rows: seq<R>, load: R -> Result<T, ParseError>): (r: Result<seq<T>, ParseError>)
    ensures r.Ok? <==> forall i | 0 <= i < |rows| :: load(rows[i]).Ok?
    ensures r.Ok? ==> |r.value| == |rows| &&
                      forall i | 0 <= i < |rows| :: r.value[i] == load(rows[i]).value
  {
    if rows == [] then Ok([])
    else
      var head :- load(rows[0]);
      var tail :- LoadAll(rows[1..], load);
      assert forall i | 1 <= i < |rows| :: rows[i] == rows[1..][i - 1];
      Ok([head] + tail)
  }

  /** `load_crypto_data` on the rows of the file. */
  function LoadCryptoData(rows: seq<RawCryptoRow>): (r: Result<seq<CryptoRecord>, ParseError>)
    ensures r.Ok? <==> forall i | 0 <= i < |rows| :: LoadCryptoRow(rows[i]).Ok?
    ensures r.Ok? ==> |r.value| == |rows| &&
                      forall i | 0 <= i < |rows| :: r.value[i] == LoadCryptoRow(rows[i]).value
  {
    LoadAll(rows, LoadCryptoRow)
  }

  /** `load_stock_data` on the rows of the file. */
  function LoadStockData(rows: seq<RawStockRow>): (r: Result<seq<StockRecord>, ParseError>)
    ensures r.Ok? <==> forall i | 0 <= i < |rows| :: LoadStockRow(rows[i]).Ok?
    ensures r.Ok? ==> |r.value| == |rows| &&
                      forall i | 0 <= i < |rows| :: r.value[i] == LoadStockRow(rows[i]).value
  {
    LoadAll(rows, LoadStockRow)
  }
}
