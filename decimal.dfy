/**
 * The part of Python's `float(text)` the parsers rely on, restricted to signed
 * decimals: an optional `+` or `-`, then digits with at most one decimal point
 * and at least one digit (`"12"`, `"-0.5"`, `"+3."`, `".25"`). Exponents,
 * `inf`/`nan` and digit-group underscores are outside this grammar and read as
 * unparseable. `float()` skips C whitespace (space and `\t` to `\r`) around the
 * number, and so does `ParseFloat`; the separators `\x1c`–`\x1f`, which
 * `str.strip()` removes, make it raise.
 */
module Decimal {
  import opened Wrappers
  import opened Text

  predicate IsDigit(c: char) {
    '0' <= c <= '9'
  }

  function DigitValue(c: char): nat
    requires IsDigit(c)
  {
    c as int - '0' as int
  }

  predicate AllDigits(s: string) {
    forall k | 0 <= k < |s| :: IsDigit(s[k])
  }

  function Pow10(k: nat): (r: nat)
    ensures r >= 1
  {
    if k == 0 then 1 else 10 * Pow10(k - 1)
  }

  /** The whole number a digit string denotes; it has at most `|ds|` digits. */
  function WholeValue(ds: string): (r: nat)
    requires AllDigits(ds)
    ensures r < Pow10(|ds|)
  {
    if ds == [] then 0
    else
      var w := WholeValue(ds[..|ds| - 1]);
      assert w <= Pow10(|ds| - 1) - 1;
      assert w * 10 <= Pow10(|ds| - 1) * 10 - 10;
      w * 10 + DigitValue(ds[|ds| - 1])
  }

  /** The value of the digits after a decimal point; always in [0, 1). */
  function FractionValue(ds: string): (r: real)
    requires AllDigits(ds)
    ensures 0.0 <= r < 1.0
  {
    if ds == [] then 0.0
    else (DigitValue(ds[0]) as real + FractionValue(ds[1..])) / 10.0
  }

  datatype Sign = NoSign | Plus | Minus

  /** A decimal literal, split into its sign, whole digits, point and fraction digits. */
  datatype Literal = Literal(sign: Sign, whole: string, point: bool, fraction: string)

  /** The literals of the grammar: digits only, at least one of them, fraction digits only after a point. */
  predicate WellFormed(l: Literal) {
    AllDigits(l.whole) && AllDigits(l.fraction) && |l.whole| + |l.fraction| > 0 &&
    (!l.point ==> l.fraction == [])
  }

  function SignText(s: Sign): string {
    match s
    case NoSign => ""
    case Plus => "+"
    case Minus => "-"
  }

  function Unsigned(l: Literal): string {
    l.whole + (if l.point then "." + l.fraction else "")
  }

  /** The text of a literal. */
  function Render(l: Literal): string {
    SignText(l.sign) + Unsigned(l)
  }

  /** The number a literal denotes. */
  function Value(l: Literal): real
    requires WellFormed(l)
  {
    var m := WholeValue(l.whole) as real + FractionValue(l.fraction);
    if l.sign == Minus then -m else m
  }

  /** Position of the first `c` in `s`, if any. */
  function IndexOf(s: string, c: char): (r: Option<nat>)
    ensures r.None? ==> c !in s
    ensures r.Some? ==> r.value < |s| && s[r.value] == c && c !in s[..r.value]
  {
    if s == [] then None
    else if s[0] == c then Some(0)
    else
      match IndexOf(s[1..], c)
      case None => None
      case Some(k) =>
        assert s[..k + 1] == [s[0]] + s[1..][..k];
        Some(k + 1)
  }

  /** Digits with at most one point and at least one digit, without a sign. */
  function ParseUnsigned(t: string): Option<real> {
    match IndexOf(t, '.')
    case None =>
      if t != [] && AllDigits(t) then Some(WholeValue(t) as real) else None
    case Some(k) =>
      var w, f := t[..k], t[k + 1..];
      if AllDigits(w) && AllDigits(f) && |w| + |f| > 0
      then Some(WholeValue(w) as real + FractionValue(f))
      else None
  }

  /** The number that `s` spells in the decimal grammar, or `None`. */
  function ParseDecimal(s: string): Option<real> {
    if s != [] && s[0] == '-' then
      match ParseUnsigned(s[1..])
      case Some(m) => Some(-m)
      case None => None
    else if s != [] && s[0] == '+' then ParseUnsigned(s[1..])
    else ParseUnsigned(s)
  }

  /** Python's `float(s)` within the decimal grammar: surrounding C whitespace is skipped; `None` means it raises `ValueError`. */
  function ParseFloat(s: string): (r: Option<real>)
    ensures forall l | WellFormed(l) && Render(l) == Trim(s) :: r == Some(Value(l))
  {
    var t := Trim(s);
    assert forall l | WellFormed(l) && Render(l) == t :: ParseDecimal(t) == Some(Value(l)) by {
      forall l | WellFormed(l) && Render(l) == t
        ensures ParseDecimal(t) == Some(Value(l))
      {
        ParseRender(l);
      }
    }
    ParseDecimal(t)
  }

  /** Within the decimal grammar, a character that is neither C whitespace nor part of a literal makes `float()` raise wherever it stands. */
  lemma FloatRejectsForeign(s: string, k: nat)
    requires k < |s| && !IsCSpace(s[k]) && !IsDigit(s[k]) && s[k] !in "+-."
    ensures ParseFloat(s).None?
  {
    TrimKeeps(s, k);
    var w := Trim(s);
    var j :| 0 <= j < |w| && w[j] == s[k];
    ParseRejectsForeign(w, j);
  }

  /** Text `float()` accepts holds no character outside C whitespace and the grammar, such as `$`, `,`, `%` or `\x1c`. */
  lemma FloatOmits(s: string, c: char)
    requires !IsCSpace(c) && !IsDigit(c) && c !in "+-."
    requires ParseFloat(s).Some?
    ensures c !in s
  {
    if c in s {
      var k :| 0 <= k < |s| && s[k] == c;
      FloatRejectsForeign(s, k);
    }
  }

  /**
   * Where `float()` reads a number, stripping the text first changes nothing:
   * the number has no whitespace of either kind around it.
   */
  lemma FloatOfStripped(s: string)
    ensures ParseFloat(s).Some? ==> ParseFloat(Strip(s)) == ParseFloat(s)
  {
    if ParseFloat(s).Some? {
      var w := Trim(s);
      var l := ParseSound(w);
      RenderAlphabet(l);
      assert w != [] by { assert |Unsigned(l)| > 0; }
      StripAgreesWithTrim(s);
      TrimUnpadded(w);
    }
  }

  /** `str.strip()` removes a leading `\x1c`, but `float()` raises on it. */
  lemma FloatRejectsSeparator()
    ensures ParseFloat("\U{001C}5").None?
    ensures ParseFloat(Strip("\U{001C}5")) == Some(5.0)
  {
    FloatRejectsForeign("\U{001C}5", 0);
    StripLeadingSeparator();
    FiveReads();
  }

  lemma FiveReads()
    ensures ParseFloat("5") == Some(5.0)
  {
    var l := Literal(NoSign, "5", false, "");
    assert Render(l) == "5";
    assert Value(l) == 5.0 by {
      assert "5"[..0] == "";
    }
    ParseFloatPadded("", l, "");
    assert "" + Render(l) + "" == "5";
  }

  /** Whatever `ParseFloat` accepts is, once trimmed, the rendering of a literal of the grammar, and the value is that literal's. */
  lemma ParseFloatSound(s: string)
    requires ParseFloat(s).Some?
    ensures exists l :: WellFormed(l) && Render(l) == Trim(s) && Value(l) == ParseFloat(s).value
  {
    var l := ParseSound(Trim(s));
  }

  lemma UnsignedParses(l: Literal)
    requires WellFormed(l)
    ensures ParseUnsigned(Unsigned(l)) == Some(WholeValue(l.whole) as real + FractionValue(l.fraction))
  {
    var u := Unsigned(l);
    assert forall k | 0 <= k < |l.whole| :: u[k] == l.whole[k];
    if l.point {
      assert u[|l.whole|] == '.';
      assert '.' !in l.whole;
      var k := IndexOf(u, '.').value;
      assert u[..|l.whole|] == l.whole;
      assert k == |l.whole| by {
        assert k >= |l.whole| by { assert u[..|l.whole|] == l.whole; }
        assert '.' in u[..|l.whole| + 1];
      }
      assert u[k + 1..] == l.fraction;
    } else {
      assert u == l.whole;
      assert '.' !in u;
    }
  }

  /** A leading sign character is read by the sign rule and the rest by the unsigned rule. */
  lemma ParseSigned(c: char, t: string)
    requires c == '-' || c == '+'
    ensures ParseDecimal([c] + t) ==
              if c == '+' then ParseUnsigned(t)
              else match ParseUnsigned(t) case Some(m) => Some(-m) case None => None
  {
    assert ([c] + t)[1..] == t;
  }

  /** The text of a literal's digits and point starts with neither sign. */
  lemma UnsignedStart(l: Literal)
    requires WellFormed(l)
    ensures Unsigned(l) != [] && Unsigned(l)[0] != '-' && Unsigned(l)[0] != '+'
  {
    var u := Unsigned(l);
    if |l.whole| > 0 { assert u[0] == l.whole[0]; } else { assert u[0] == '.'; }
  }

  /** A signed literal reads back through the sign rule. */
  lemma ParseRenderSigned(l: Literal)
    requires WellFormed(l) && l.sign != NoSign
    ensures ParseDecimal(Render(l)) == Some(Value(l))
  {
    UnsignedParses(l);
    var u := Unsigned(l);
    var m := WholeValue(l.whole) as real + FractionValue(l.fraction);
    assert ParseUnsigned(u) == Some(m);
    var c := if l.sign == Plus then '+' else '-';
    assert Render(l) == [c] + u;
    ParseSigned(c, u);
    if c == '+' {
      assert Value(l) == m;
      assert ParseDecimal([c] + u) == Some(m);
    } else {
      assert Value(l) == -m;
      assert ParseDecimal([c] + u) == Some(-m);
    }
  }

  /** Text that starts with neither sign is read by the unsigned rule alone. */
  lemma UnsignedRule(u: string)
    requires u != [] && u[0] != '-' && u[0] != '+'
    ensures ParseDecimal(u) == ParseUnsigned(u)
  {
  }

  /** The digits and point of a literal, read on their own, are its magnitude. */
  lemma UnsignedReads(l: Literal)
    requires WellFormed(l)
    ensures ParseDecimal(Unsigned(l)) == Some(WholeValue(l.whole) as real + FractionValue(l.fraction))
  {
    UnsignedStart(l);
    UnsignedRule(Unsigned(l));
    UnsignedParses(l);
  }

  /** An unsigned literal reads back as the number it denotes. */
  lemma ParseRenderUnsigned(l: Literal)
    requires WellFormed(l) && l.sign == NoSign
    ensures ParseDecimal(Render(l)) == Some(Value(l))
  {
    assert Render(l) == Unsigned(l);
    UnsignedReads(l);
    assert Value(l) == WholeValue(l.whole) as real + FractionValue(l.fraction);
  }

  /** Every literal of the grammar reads back as the number it denotes. */
  lemma ParseRender(l: Literal)
    requires WellFormed(l)
    ensures ParseDecimal(Render(l)) == Some(Value(l))
  {
    if l.sign == NoSign {
      ParseRenderUnsigned(l);
    } else {
      ParseRenderSigned(l);
    }
  }

  /** What the unsigned rule checks and computes on text with a point. */
  lemma PointParts(t: string, k: nat)
    requires IndexOf(t, '.') == Some(k)
    requires ParseUnsigned(t).Some?
    ensures AllDigits(t[..k]) && AllDigits(t[k + 1..]) && |t[..k]| + |t[k + 1..]| > 0
    ensures ParseUnsigned(t) == Some(WholeValue(t[..k]) as real + FractionValue(t[k + 1..]))
  {
  }

  /** Text is what precedes a point, the point, and what follows it. */
  lemma PointJoin(t: string, k: nat)
    requires k < |t| && t[k] == '.'
    ensures t[..k] + ("." + t[k + 1..]) == t
  {
    assert t[..k] + [t[k]] + t[k + 1..] == t;
  }

  /** Unsigned text with a point splits into whole digits, the point and fraction digits. */
  lemma UnsignedSoundPoint(t: string, k: nat) returns (l: Literal)
    requires IndexOf(t, '.') == Some(k)
    requires ParseUnsigned(t).Some?
    ensures WellFormed(l) && l.sign == NoSign && Unsigned(l) == t
    ensures ParseUnsigned(t) == Some(WholeValue(l.whole) as real + FractionValue(l.fraction))
  {
    PointParts(t, k);
    PointJoin(t, k);
    l := Literal(NoSign, t[..k], true, t[k + 1..]);
  }

  lemma UnsignedSound(t: string) returns (l: Literal)
    requires ParseUnsigned(t).Some?
    ensures WellFormed(l) && l.sign == NoSign && Unsigned(l) == t
    ensures ParseUnsigned(t) == Some(WholeValue(l.whole) as real + FractionValue(l.fraction))
  {
    match IndexOf(t, '.')
    case None =>
      l := Literal(NoSign, t, false, "");
      assert Unsigned(l) == t;
    case Some(k) =>
      l := UnsignedSoundPoint(t, k);
  }

  /** The signed case of `ParseSound`: the sign character becomes the literal's sign. */
  lemma SignedSound(c: char, t: string) returns (l: Literal)
    requires c == '-' || c == '+'
    requires ParseUnsigned(t).Some?
    ensures WellFormed(l) && Render(l) == [c] + t && ParseDecimal([c] + t) == Some(Value(l))
  {
    var u := UnsignedSound(t);
    var m := ParseUnsigned(t).value;
    l := u.(sign := if c == '-' then Minus else Plus);
    assert Value(l) == if c == '-' then -m else m;
    assert ParseDecimal([c] + t) == Some(if c == '-' then -m else m) by {
      ParseSigned(c, t);
    }
    assert Render(l) == [c] + t by {
      assert Unsigned(l) == t;
    }
  }

  /** The unsigned case of `ParseSound`. */
  lemma UnsignedTextSound(s: string) returns (l: Literal)
    requires s == [] || (s[0] != '-' && s[0] != '+')
    requires ParseDecimal(s).Some?
    ensures WellFormed(l) && Render(l) == s && ParseDecimal(s) == Some(Value(l))
  {
    assert ParseDecimal(s) == ParseUnsigned(s);
    l := UnsignedSound(s);
    var m := WholeValue(l.whole) as real + FractionValue(l.fraction);
    assert Value(l) == m;
    assert Render(l) == s by {
      assert Render(l) == Unsigned(l);
    }
  }

  /** Conversely, whatever parses is the text of a literal of the grammar, and its value is the literal's. */
  lemma ParseSound(s: string) returns (l: Literal)
    requires ParseDecimal(s).Some?
    ensures WellFormed(l) && Render(l) == s && ParseDecimal(s) == Some(Value(l))
  {
    if s != [] && (s[0] == '-' || s[0] == '+') {
      assert s == [s[0]] + s[1..];
      ParseSigned(s[0], s[1..]);
      l := SignedSound(s[0], s[1..]);
    } else {
      l := UnsignedTextSound(s);
    }
  }

  /** The digits and point of a literal are digits and the point only. */
  lemma UnsignedAlphabet(l: Literal)
    requires WellFormed(l)
    ensures forall k | 0 <= k < |Unsigned(l)| :: IsDigit(Unsigned(l)[k]) || Unsigned(l)[k] == '.'
  {
    var u := Unsigned(l);
    forall k | 0 <= k < |u|
      ensures IsDigit(u[k]) || u[k] == '.'
    {
      if k < |l.whole| {
        assert u[k] == l.whole[k];
      } else if k > |l.whole| {
        assert u[k] == l.fraction[k - |l.whole| - 1];
      }
    }
  }

  /** A literal is written with digits, signs and the point only. */
  lemma RenderAlphabet(l: Literal)
    requires WellFormed(l)
    ensures forall k | 0 <= k < |Render(l)| :: IsDigit(Render(l)[k]) || Render(l)[k] in "+-."
  {
    var r := Render(l);
    var u := Unsigned(l);
    var p := |SignText(l.sign)|;
    UnsignedAlphabet(l);
    assert forall k | p <= k < |r| :: r[k] == u[k - p];
  }

  /** Within the decimal grammar, any other character (a letter, `$`, `,`, `%`, whitespace inside) makes the text unparseable. */
  lemma ParseRejectsForeign(s: string, k: nat)
    requires k < |s| && !IsDigit(s[k]) && s[k] !in "+-."
    ensures ParseDecimal(s).None?
  {
    if ParseDecimal(s).Some? {
      var l := ParseSound(s);
      RenderAlphabet(l);
    }
  }

  /** `float()` reads a literal padded with C whitespace on either side as the literal's value. */
  lemma ParseFloatPadded(lead: string, l: Literal, trail: string)
    requires WellFormed(l)
    requires forall k | 0 <= k < |lead| :: IsCSpace(lead[k])
    requires forall k | 0 <= k < |trail| :: IsCSpace(trail[k])
    ensures ParseFloat(lead + Render(l) + trail) == Some(Value(l))
  {
    RenderAlphabet(l);
    var r := Render(l);
    assert r != [] by { assert |Unsigned(l)| > 0; }
    assert !IsCSpace(r[0]) && !IsCSpace(r[|r| - 1]);
    TrimPadded(lead, r, trail);
    ParseRender(l);
  }
}
