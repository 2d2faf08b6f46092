/**
 * The thousands-separator watcher of the numeric field: on every change of
 * the text it splits the text at the first decimal separator, removes the
 * thousands separators from the integer part, parses it as a `Long`, prints
 * it again grouped by three, appends the fractional part unchanged, and
 * puts the caret back. Writing the result into the field is one atomic
 * step here; the listener detach/re-attach around it is not modelled.
 */
module Watcher {
  import opened Wrappers
  import opened Text
  import opened Numbers
  import opened Grouping

  /** The two separator characters given to the watcher's constructor. */
  datatype Config = Config(decimal: char, thousands: char)

  /**
   * What the watcher silently relies on: the separators differ and neither
   * is a digit. The constructor does not check it.
   */
  predicate ValidConfig(cfg: Config) {
    cfg.decimal != cfg.thousands && !IsDigit(cfg.decimal) && !IsDigit(cfg.thousands)
  }

  /** The watcher between two changes: its separators and `prevString`. */
  datatype TextWatcher = TextWatcher(cfg: Config, prev: string)

  /** A freshly constructed watcher remembers the empty text. */
  function NewWatcher(cfg: Config): TextWatcher
    requires ValidConfig(cfg)
  {
    TextWatcher(cfg, "")
  }

  /** What one change does to the field. */
  datatype Outcome =
    | Unchanged                           // the integer part did not parse
    | Rewritten(text: string, caret: nat) // new text and caret of the field

  /** The text before the first decimal separator. */
  function IntPart(cfg: Config, text: string): string {
    SplitAtFirst(text, cfg.decimal).0
  }

  /** The first decimal separator and everything after it (empty without one). */
  function Fraction(cfg: Config, text: string): string {
    SplitAtFirst(text, cfg.decimal).1
  }

  /** The integer part with every thousands separator removed. */
  function Stripped(cfg: Config, text: string): string {
    Strip(IntPart(cfg, text), cfg.thousands)
  }

  /** `toLong()` of the stripped integer part. */
  function Value(cfg: Config, text: string): Option<int> {
    ParseLong(Stripped(cfg, text))
  }

  /**
   * The caret rule for an edit away from the end of the text, as written:
   * it moves one further when the text grew, the stripped integer part
   * has 4, 7, 10, ... characters, and the caret is not on the decimal
   * separator.
   */
  predicate AdvancesAsWritten(prev: string, text: string, stripped: string,
                              decimalAt: Option<nat>, caret: nat) {
    |text| > |prev| && |stripped| != 1 && |stripped| % 3 == 1 && decimalAt != Some(caret)
  }

  /** `afterTextChanged`: one change of the field's text, with the caret where it was left. */
  function Step(w: TextWatcher, text: string, caret: nat): (r: (TextWatcher, Outcome))
    ensures r.1.Unchanged? <==> Value(w.cfg, text).None?
    ensures r.1.Unchanged? ==> r.0 == w
    ensures r.1.Rewritten? ==> r.0 == w.(prev := text)
    ensures r.1.Rewritten? && caret == |text| ==> r.1.caret == |r.1.text|
    ensures r.1.Rewritten? && caret != |text| ==>
      (r.1.caret == caret || r.1.caret == caret + 1)
    ensures r.1.Rewritten? && caret != |text| ==>
      (r.1.caret == caret + 1 <==>
        && |text| > |w.prev|
        && |Stripped(w.cfg, text)| != 1
        && |Stripped(w.cfg, text)| % 3 == 1
        && IndexOf(text, w.cfg.decimal) != Some(caret))
    ensures r.1.Rewritten? && caret != |text| && |text| <= |w.prev| ==> r.1.caret == caret
  {
    match Value(w.cfg, text)
    case None => (w, Unchanged)
    case Some(v) =>
      var out := Render(v, w.cfg.thousands) + Fraction(w.cfg, text);
      var newCaret :=
        if caret == |text| then |out|
        else if AdvancesAsWritten(w.prev, text, Stripped(w.cfg, text), IndexOf(text, w.cfg.decimal), caret)
        then caret + 1
        else caret;
      (w.(prev := text), Rewritten(out, newCaret))
  }

  /** A negative value can only come from a text whose decimal separator is not `-`. */
  lemma NegativeValueSign(cfg: Config, text: string)
    requires Value(cfg, text).Some? && Value(cfg, text).value < 0
    ensures cfg.decimal != '-'
  {
    var ip := IntPart(cfg, text);
    var st := Stripped(cfg, text);
    assert st[0] == '-';
    StripSubset(ip, cfg.thousands, '-');
  }

  /** The rendering of a value parsed from the text holds no decimal separator. */
  lemma RenderHasNoDecimal(cfg: Config, text: string)
    requires ValidConfig(cfg)
    requires Value(cfg, text).Some?
    ensures cfg.decimal !in Render(Value(cfg, text).value, cfg.thousands)
  {
    var v := Value(cfg, text).value;
    var r := Render(v, cfg.thousands);
    if v < 0 {
      NegativeValueSign(cfg, text);
      assert forall i :: 1 <= i < |r| ==> r[i] == r[1..][i - 1];
    }
  }

  /**
   * A rewritten text is the rendering of the parsed value followed by the
   * original fractional part, character for character: splitting the new
   * text at its first decimal separator gives exactly these two pieces.
   */
  lemma StepKeepsFraction(w: TextWatcher, text: string, caret: nat)
    requires ValidConfig(w.cfg)
    ensures var r := Step(w, text, caret).1;
      r.Rewritten? ==>
        && IntPart(w.cfg, r.text) == Render(Value(w.cfg, text).value, w.cfg.thousands)
        && Fraction(w.cfg, r.text) == Fraction(w.cfg, text)
        && (IndexOf(text, w.cfg.decimal).None? ==> Fraction(w.cfg, r.text) == [])
  {
    var r := Step(w, text, caret).1;
    if r.Rewritten? {
      var v := Value(w.cfg, text).value;
      RenderHasNoDecimal(w.cfg, text);
      SplitAtFirstUnique(r.text, w.cfg.decimal, Render(v, w.cfg.thousands), Fraction(w.cfg, text));
    }
  }

  /**
   * Reformatting keeps the number: the rewritten text parses to the value
   * the original text parsed to.
   */
  lemma StepPreservesValue(w: TextWatcher, text: string, caret: nat)
    requires ValidConfig(w.cfg)
    ensures var r := Step(w, text, caret).1;
      r.Rewritten? ==> Value(w.cfg, r.text) == Value(w.cfg, text)
  {
    var r := Step(w, text, caret).1;
    if r.Rewritten? {
      StepKeepsFraction(w, text, caret);
      var v := Value(w.cfg, text).value;
      // stripping a `-` separator leaves no sign to parse
      assert w.cfg.thousands != '-' || v >= 0;
      RenderRoundTrip(v, w.cfg.thousands);
    }
  }

  /** The magnitude part of an integer part: what follows an optional `-`. */
  function Unsigned(s: string): string {
    if |s| > 0 && s[0] == '-' then s[1..] else s
  }

  /**
   * An integer part as the watcher prints it: an optional `-`, then a
   * well-grouped magnitude with no leading zero, and no `-0`.
   */
  predicate CanonicalInteger(s: string, sep: char) {
    var mag := Unsigned(s);
    && WellGrouped(mag, sep)
    && |mag| > 0
    && (mag[0] != '0' || mag == "0")
    && !(|s| > 0 && s[0] == '-' && mag == "0")
  }

  /** A text already formatted: canonical integer part that parses as a `Long`. */
  predicate Canonical(cfg: Config, text: string) {
    CanonicalInteger(IntPart(cfg, text), cfg.thousands) && Value(cfg, text).Some?
  }

  /** A canonical magnitude is the grouping of the digits of its own value. */
  lemma CanonicalMagnitude(mag: string, sep: char)
    requires !IsDigit(sep)
    requires WellGrouped(mag, sep) && |mag| > 0 && (mag[0] != '0' || mag == "0")
    ensures AllDigits(Strip(mag, sep)) && |Strip(mag, sep)| >= 1
    ensures GroupDigits(ToDigits(DigitsValue(Strip(mag, sep))), sep) == mag
    ensures mag != "0" ==> DigitsValue(Strip(mag, sep)) >= 1
  {
    WellGroupedIsGrouping(mag, sep);
    var ds := Strip(mag, sep);
    GroupDigitsFirst(ds, sep);
    ToDigitsOfValue(ds);
    if mag != "0" {
      LeadingDigitPositive(ds);
    }
  }

  /** A canonical integer part is the rendering of the value it parses to. */
  lemma CanonicalIsRendering(s: string, sep: char)
    requires !IsDigit(sep) && sep != '-'
    requires CanonicalInteger(s, sep)
    requires ParseLong(Strip(s, sep)).Some?
    ensures Render(ParseLong(Strip(s, sep)).value, sep) == s
  {
    var mag := Unsigned(s);
    CanonicalMagnitude(mag, sep);
    SignedRendering(s, mag, sep);
  }

  /** The sign and the magnitude are rendered separately. */
  lemma SignedRendering(s: string, mag: string, sep: char)
    requires !IsDigit(sep) && sep != '-'
    requires mag == Unsigned(s)
    requires AllDigits(Strip(mag, sep)) && |Strip(mag, sep)| >= 1
    requires GroupDigits(ToDigits(DigitsValue(Strip(mag, sep))), sep) == mag
    requires |s| > 0 && s[0] == '-' ==> DigitsValue(Strip(mag, sep)) >= 1
    requires ParseLong(Strip(s, sep)).Some?
    ensures Render(ParseLong(Strip(s, sep)).value, sep) == s
  {
    if |s| > 0 && s[0] == '-' {
      assert s == "-" + mag;
      NegativeRendering(s, mag, sep);
    } else {
      assert s == mag;
      NonNegativeRendering(mag, sep);
    }
  }

  lemma NonNegativeRendering(mag: string, sep: char)
    requires AllDigits(Strip(mag, sep)) && |Strip(mag, sep)| >= 1
    requires GroupDigits(ToDigits(DigitsValue(Strip(mag, sep))), sep) == mag
    ensures ParseLong(Strip(mag, sep)).Some? ==> Render(ParseLong(Strip(mag, sep)).value, sep) == mag
  {
    var ds := Strip(mag, sep);
    assert IsDigit(ds[0]);
    assert Magnitude(ds) == ds;
    assert SignedValue(ds) == DigitsValue(ds);
  }

  lemma NegativeRendering(s: string, mag: string, sep: char)
    requires !IsDigit(sep) && sep != '-'
    requires s == "-" + mag
    requires AllDigits(Strip(mag, sep)) && DigitsValue(Strip(mag, sep)) >= 1
    requires GroupDigits(ToDigits(DigitsValue(Strip(mag, sep))), sep) == mag
    ensures ParseLong(Strip(s, sep)).Some? ==> Render(ParseLong(Strip(s, sep)).value, sep) == s
  {
    var ds := Strip(mag, sep);
    StripAppend("-", mag, sep);
    var st := Strip(s, sep);
    assert st == "-" + ds;
    assert Magnitude(st) == ds;
    assert SignedValue(st) == -(DigitsValue(ds) as int);
  }

  /**
   * Idempotence: with the caret at the end, an already formatted text is
   * written back unchanged and the caret stays at the end.
   */
  lemma StepIdempotent(w: TextWatcher, text: string)
    requires ValidConfig(w.cfg) && w.cfg.thousands != '-'
    requires Canonical(w.cfg, text)
    ensures Step(w, text, |text|) == (w.(prev := text), Rewritten(text, |text|))
  {
    CanonicalIsRendering(IntPart(w.cfg, text), w.cfg.thousands);
  }

  /** Every rewritten text is canonical. */
  lemma StepOutputCanonical(w: TextWatcher, text: string, caret: nat)
    requires ValidConfig(w.cfg)
    ensures var r := Step(w, text, caret).1;
      r.Rewritten? ==> Canonical(w.cfg, r.text)
  {
    var r := Step(w, text, caret).1;
    if r.Rewritten? {
      var sep := w.cfg.thousands;
      var v := Value(w.cfg, text).value;
      StepKeepsFraction(w, text, caret);
      StepPreservesValue(w, text, caret);
      var ds := ToDigits(Abs(v));
      GroupDigitsShape(ds, sep);
      GroupDigitsFirst(ds, sep);
      var rendered := Render(v, sep);
      assert Unsigned(rendered) == GroupDigits(ds, sep);
    }
  }

  /**
   * Formatting is a projection: feeding a rewritten text back with the
   * caret at the end changes nothing.
   */
  lemma StepOutputIsFixedPoint(w: TextWatcher, text: string, caret: nat)
    requires ValidConfig(w.cfg)
    ensures var (w', r) := Step(w, text, caret);
      r.Rewritten? ==> Step(w', r.text, |r.text|).1 == Rewritten(r.text, |r.text|)
  {
    var (w', r) := Step(w, text, caret);
    if r.Rewritten? {
      StepKeepsFraction(w, text, caret);
      StepPreservesValue(w, text, caret);
      var v := Value(w.cfg, text).value;
      assert r.text == Render(v, w.cfg.thousands) + Fraction(w.cfg, r.text);
    }
  }

  /**
   * Whether the grouping of `v` has one separator more than the grouping
   * of `v` without its last digit: the separator the caret should skip.
   */
  predicate GainsSeparator(v: int, sep: char) {
    var ds := ToDigits(Abs(v));
    Count(GroupDigits(ds, sep), sep) > Count(GroupDigits(ds[..|ds| - 1], sep), sep)
  }

  /**
   * The caret rule with the digit count corrected: the same test, but on
   * the number of digits of the magnitude rather than on the stripped text,
   * which may also hold a sign and leading zeros. "The text grew" is still
   * measured against `prevString`; `StepShown` corrects that part. It does
   * not check that the edit added a digit, so a typed leading zero, which
   * the rendering drops, still moves the caret.
   */
  predicate AdvancesIntended(prev: string, text: string, v: int,
                             decimalAt: Option<nat>, caret: nat) {
    var d := |ToDigits(Abs(v))|;
    |text| > |prev| && d != 1 && d % 3 == 1 && decimalAt != Some(caret)
  }

  lemma GroupCountStep(d: nat)
    requires d >= 2
    ensures (d - 1) / 3 > (d - 2) / 3 <==> d % 3 == 1
  {
  }

  /** A new separator appears exactly when the D-th digit makes D one more than a multiple of three. */
  lemma GainsSeparatorDigits(v: int, sep: char)
    requires !IsDigit(sep)
    ensures var d := |ToDigits(Abs(v))|;
      GainsSeparator(v, sep) <==> d != 1 && d % 3 == 1
  {
    var ds := ToDigits(Abs(v));
    var d := |ds|;
    GroupDigitsCount(ds, sep);
    if d == 1 {
      assert ds[..0] == [];
    } else {
      var init := ds[..d - 1];
      assert AllDigits(init) by {
        assert forall k :: 0 <= k < |init| ==> init[k] == ds[k];
      }
      GroupDigitsCount(init, sep);
      assert |init| == d - 1;
      GroupCountStep(d);
    }
  }

  /** `Step` with the digit count of the caret rule corrected. */
  function StepIntended(w: TextWatcher, text: string, caret: nat): (r: (TextWatcher, Outcome))
    requires ValidConfig(w.cfg)
    ensures r.1.Unchanged? <==> Value(w.cfg, text).None?
    ensures r.1.Unchanged? ==> r.0 == w
    ensures r.1.Rewritten? ==> r.0 == w.(prev := text)
    ensures r.1.Rewritten? ==> r.1.text == Step(w, text, caret).1.text
    ensures r.1.Rewritten? && caret == |text| ==> r.1.caret == |r.1.text|
    ensures r.1.Rewritten? && caret != |text| ==>
      (r.1.caret == caret || r.1.caret == caret + 1)
    ensures r.1.Rewritten? && caret != |text| ==>
      (r.1.caret == caret + 1 <==>
        && |text| > |w.prev|
        && GainsSeparator(Value(w.cfg, text).value, w.cfg.thousands)
        && IndexOf(text, w.cfg.decimal) != Some(caret))
  {
    match Value(w.cfg, text)
    case None => (w, Unchanged)
    case Some(v) =>
      GainsSeparatorDigits(v, w.cfg.thousands);
      var out := Render(v, w.cfg.thousands) + Fraction(w.cfg, text);
      var newCaret :=
        if caret == |text| then |out|
        else if AdvancesIntended(w.prev, text, v, IndexOf(text, w.cfg.decimal), caret)
        then caret + 1
        else caret;
      (w.(prev := text), Rewritten(out, newCaret))
  }

  /**
   * The two rules agree whenever the stripped integer part is plain digits
   * without a leading zero. They differ on a sign, where the corrected rule
   * is right, and on a leading zero, where it is not (see
   * `LeadingZeroCounterexample`).
   */
  lemma StepsAgreeOnPlainDigits(w: TextWatcher, text: string, caret: nat)
    requires ValidConfig(w.cfg)
    requires AllDigits(Stripped(w.cfg, text)) && |Stripped(w.cfg, text)| >= 1
    requires Stripped(w.cfg, text)[0] != '0' || Stripped(w.cfg, text) == "0"
    ensures StepIntended(w, text, caret) == Step(w, text, caret)
  {
    var st := Stripped(w.cfg, text);
    ToDigitsOfValue(st);
  }

  /**
   * As written, the sign counts as a digit: typing `3` inside `-12` gives
   * `-132`, which gains no separator, yet the caret jumps past the `2`.
   */
  lemma SignedCaretCounterexample()
    ensures var w := TextWatcher(Config('.', ','), "-12");
      && Step(w, "-132", 3).1 == Rewritten("-132", 4)
      && !GainsSeparator(-132, ',')
      && StepIntended(w, "-132", 3).1 == Rewritten("-132", 3)
  {
    MinusParses();
    MinusRenders();
    GainsSeparatorDigits(-132, ',');
    assert "-132" + "" == "-132";
  }

  lemma MinusParses()
    ensures Value(Config('.', ','), "-132") == Some(-132)
    ensures Fraction(Config('.', ','), "-132") == ""
    ensures Stripped(Config('.', ','), "-132") == "-132"
    ensures IndexOf("-132", '.') == None
  {
    assert SplitAtFirst("-132", '.') == ("-132", "");
    assert Strip("-132", ',') == "-132";
    assert "-132"[1..] == "132";
    assert "132"[..2] == "13" && "13"[..1] == "1";
    assert DigitsValue("132") == 132;
  }

  lemma MinusRenders()
    ensures ToDigits(132) == "132"
    ensures Render(-132, ',') == "-132"
  {
    assert "132"[..2] == "13" && "13"[..1] == "1";
    assert DigitsValue("132") == 132;
    ToDigitsOfValue("132");
  }

  lemma ThousandParses()
    ensures Value(Config('.', ','), "1000") == Some(1000)
    ensures Fraction(Config('.', ','), "1000") == ""
  {
    var t := "1000";
    assert SplitAtFirst(t, '.') == (t, "");
    assert Strip(t, ',') == t;
    assert t[..3] == "100" && "100"[..2] == "10" && "10"[..1] == "1";
    assert DigitsValue(t) == 1000;
  }

  lemma ThousandRenders()
    ensures Render(1000, ',') == "1,000"
  {
    var t := "1000";
    assert t[..3] == "100" && "100"[..2] == "10" && "10"[..1] == "1";
    assert DigitsValue(t) == 1000;
    ToDigitsOfValue(t);
    assert t[..1] == "1" && t[1..] == "000";
    assert GroupDigits(t, ',') == "1,000";
  }

  /** Worked case: `1000` typed at the end becomes `1,000` with the caret at the end. */
  lemma ThousandExample()
    ensures var w := TextWatcher(Config('.', ','), "100");
      Step(w, "1000", 4) == (TextWatcher(Config('.', ','), "1000"), Rewritten("1,000", 5))
  {
    ThousandParses();
    ThousandRenders();
    assert "1,000" + "" == "1,000";
  }

  /** Worked cases: an integer part that is not a number leaves the field alone. */
  lemma UnparsableExamples()
    ensures var w := TextWatcher(Config('.', ','), "12");
      && Step(w, "--", 2) == (w, Unchanged)
      && Step(w, ".5", 2) == (w, Unchanged)
      && Step(w, "1a", 1) == (w, Unchanged)
  {
    assert SplitAtFirst("--", '.') == ("--", "");
    assert Strip("--", ',') == "--";
    assert !LongSyntax("--");
    assert SplitAtFirst(".5", '.') == ("", ".5");
    assert SplitAtFirst("1a", '.') == ("1a", "");
    assert Strip("1a", ',') == "1a";
    assert !LongSyntax("1a");
  }

  /**
   * A fresh watcher remembers the empty text, so on its first change any
   * nonempty text counts as grown, whatever the field already held.
   */
  lemma NewWatcherFirstEdit(cfg: Config, text: string, caret: nat)
    requires ValidConfig(cfg) && |text| > 0
    ensures var r := Step(NewWatcher(cfg), text, caret).1;
      r.Rewritten? && caret != |text| ==>
        (r.caret == caret + 1 <==>
          && |Stripped(cfg, text)| != 1
          && |Stripped(cfg, text)| % 3 == 1
          && IndexOf(text, cfg.decimal) != Some(caret))
  {
  }

  /** What the field shows after a change to `text` with outcome `o`. */
  function Shown(text: string, o: Outcome): string {
    match o
    case Unchanged => text
    case Rewritten(t, _) => t
  }

  /**
   * `Step` with both corrections: the caret rule of `StepIntended`, and the
   * watcher remembers what the field shows afterwards (the text it wrote,
   * or the unparsable text it left alone) rather than the text it was
   * handed, so that "the text grew" compares with what the user saw.
   */
  function StepShown(w: TextWatcher, text: string, caret: nat): (r: (TextWatcher, Outcome))
    requires ValidConfig(w.cfg)
    ensures r.1 == StepIntended(w, text, caret).1
    ensures r.0 == w.(prev := Shown(text, r.1))
    ensures r.1.Unchanged? ==> r.0.prev == text
    ensures r.1.Rewritten? ==> r.0.prev == Step(w, text, caret).1.text
  {
    var o := StepIntended(w, text, caret).1;
    if o.Rewritten? then (w.(prev := o.text), o) else (w.(prev := text), o)
  }

  /**
   * When the remembered text is what the field shows, as `StepShown`
   * arranges after every change, deleting one character away from the end
   * never moves the caret.
   */
  lemma ShownDeletionKeepsCaret(w: TextWatcher, i: nat)
    requires ValidConfig(w.cfg)
    requires i + 1 < |w.prev|
    ensures var edited := w.prev[..i] + w.prev[i + 1..];
      var r := StepShown(w, edited, i).1;
      r.Rewritten? ==> r.caret == i
  {
    var edited := w.prev[..i] + w.prev[i + 1..];
    assert |edited| < |w.prev|;
  }

  lemma PastedDigitsValue()
    ensures AllDigits("12345678") && DigitsValue("12345678") == 12345678
  {
    var t := "12345678";
    assert t[..7] == "1234567" && "1234567"[..6] == "123456" && "123456"[..5] == "12345";
    assert "12345"[..4] == "1234" && "1234"[..3] == "123" && "123"[..2] == "12" && "12"[..1] == "1";
  }

  lemma PastedDigitsParse()
    ensures Value(Config('.', ','), "12345678") == Some(12345678)
    ensures Fraction(Config('.', ','), "12345678") == ""
  {
    var t := "12345678";
    PastedDigitsValue();
    assert LongSyntax(t) && Magnitude(t) == t;
    assert SplitAtFirst(t, '.') == (t, "");
    assert Strip(t, ',') == t;
  }

  lemma PastedDigitsRender()
    ensures Render(12345678, ',') == "12,345,678"
  {
    var t := "12345678";
    PastedDigitsValue();
    ToDigitsOfValue(t);
    assert GroupDigits("12345", ',') == "12,345" by {
      assert "12345"[..2] == "12" && "12345"[2..] == "345";
    }
    assert t[..5] == "12345" && t[5..] == "678";
  }

  /** Removing the separators from `a,b,d`, where none of the pieces holds one. */
  lemma StripTwoSeparators(a: string, b: string, d: string, c: char)
    requires c !in a && c !in b && c !in d
    ensures Strip(a + [c] + b + [c] + d, c) == a + b + d
  {
    var x := a + [c];
    StripAppend(a, [c], c);
    assert Strip([c], c) == [];
    assert Strip(x, c) == a;
    var y := x + b;
    StripAppend(x, b, c);
    assert Strip(y, c) == a + b;
    var z := y + [c];
    StripAppend(y, [c], c);
    assert Strip(z, c) == a + b;
    StripAppend(z, d, c);
  }

  /**
   * `12,35,678`, spelt as its pieces so that the verifier works on the
   * pieces rather than on the whole string.
   */
  lemma EditedTextStrips()
    ensures var e := "12" + [','] + "35" + [','] + "678";
      && Stripped(Config('.', ','), e) == "1235678"
      && Fraction(Config('.', ','), e) == ""
      && IndexOf(e, '.') == None
  {
    var e := "12" + [','] + "35" + [','] + "678";
    assert '.' !in e;
    assert SplitAtFirst(e, '.') == (e, "");
    StripTwoSeparators("12", "35", "678", ',');
    assert "12" + "35" + "678" == "1235678";
  }

  lemma EditedDigitsValue()
    ensures AllDigits("1235678") && DigitsValue("1235678") == 1235678
  {
    var t := "1235678";
    assert t[..6] == "123567" && "123567"[..5] == "12356" && "12356"[..4] == "1235";
    assert "1235"[..3] == "123" && "123"[..2] == "12" && "12"[..1] == "1";
  }

  lemma EditedTextParses()
    ensures Value(Config('.', ','), "12" + [','] + "35" + [','] + "678") == Some(1235678)
  {
    var t := "1235678";
    EditedTextStrips();
    EditedDigitsValue();
    assert LongSyntax(t) && Magnitude(t) == t;
  }

  lemma EditedTextRenders()
    ensures Render(1235678, ',') == "1,235,678"
  {
    var t := "1235678";
    EditedDigitsValue();
    ToDigitsOfValue(t);
    assert GroupDigits("1235", ',') == "1,235" by {
      assert "1235"[..1] == "1" && "1235"[1..] == "235";
    }
    assert t[..4] == "1235" && t[4..] == "678";
  }

  /** Pasting `12345678` into an empty field. */
  lemma PasteStep()
    ensures var cfg := Config('.', ',');
      && Step(TextWatcher(cfg, ""), "12345678", 8)
         == (TextWatcher(cfg, "12345678"), Rewritten("12,345,678", 10))
      && StepShown(TextWatcher(cfg, ""), "12345678", 8)
         == (TextWatcher(cfg, "12,345,678"), Rewritten("12,345,678", 10))
  {
    PastedDigitsParse();
    PastedDigitsRender();
    assert "12,345,678" + "" == "12,345,678";
  }

  /** What the deletion of the `4` from `12,345,678` turns into. */
  lemma DeletionOutput(w: TextWatcher)
    requires w.cfg == Config('.', ',')
    ensures var edited := "12" + [','] + "35" + [','] + "678";
      && Step(w, edited, 4).1.Rewritten?
      && Step(w, edited, 4).1.text == "1,235,678"
      && Stripped(w.cfg, edited) == "1235678"
      && IndexOf(edited, '.') == None
  {
    EditedTextStrips();
    EditedTextParses();
    EditedTextRenders();
    assert "1,235,678" + "" == "1,235,678";
  }

  /**
   * As written, `prevString` keeps the text before reformatting: after
   * `12345678` is pasted and shown as `12,345,678`, deleting the `4`
   * leaves `12,35,678` with the caret at 4. That is nine characters against
   * the eight remembered, so the caret jumps past the `5` although nothing
   * was inserted. A fresh watcher on a field that already showed
   * `12,345,678` does the same on its first change.
   */
  lemma PasteDeletionCounterexample()
    ensures var cfg := Config('.', ',');
      var edited := "12" + [','] + "35" + [','] + "678";
      var (w1, r1) := Step(TextWatcher(cfg, ""), "12345678", 8);
      && w1 == TextWatcher(cfg, "12345678")
      && r1 == Rewritten("12,345,678", 10)
      && Step(w1, edited, 4).1 == Rewritten("1,235,678", 5)
      && Step(TextWatcher(cfg, ""), edited, 4).1 == Rewritten("1,235,678", 5)
  {
    var cfg := Config('.', ',');
    PasteStep();
    DeletionOutput(TextWatcher(cfg, "12345678"));
    DeletionOutput(TextWatcher(cfg, ""));
  }

  /**
   * Remembering the shown text, the same paste and deletion keep the caret
   * at 4, and so does a watcher started with the text the field showed.
   */
  lemma PasteDeletionShown()
    ensures var cfg := Config('.', ',');
      var edited := "12" + [','] + "35" + [','] + "678";
      var (w1, r1) := StepShown(TextWatcher(cfg, ""), "12345678", 8);
      && w1 == TextWatcher(cfg, "12,345,678")
      && r1 == Rewritten("12,345,678", 10)
      && StepShown(w1, edited, 4).1 == Rewritten("1,235,678", 4)
  {
    var cfg := Config('.', ',');
    PasteStep();
    DeletionOutput(TextWatcher(cfg, "12,345,678"));
  }

  lemma TypoUnparsable()
    ensures Value(Config('.', ','), "1x23").None?
  {
    assert SplitAtFirst("1x23", '.') == ("1x23", "");
    assert Strip("1x23", ',') == "1x23";
    assert !LongSyntax("1x23");
  }

  lemma LongerTypoUnparsable()
    ensures Value(Config('.', ','), "1x423").None?
  {
    assert SplitAtFirst("1x423", '.') == ("1x423", "");
    assert Strip("1x423", ',') == "1x423";
    assert !LongSyntax("1x423");
  }

  lemma TypoFixedParses()
    ensures Value(Config('.', ','), "1423") == Some(1423)
  {
    var t := "1423";
    assert SplitAtFirst(t, '.') == (t, "");
    assert Strip(t, ',') == t;
    assert t[..3] == "142" && "142"[..2] == "14" && "14"[..1] == "1";
    assert DigitsValue(t) == 1423;
    assert LongSyntax(t) && Magnitude(t) == t;
  }

  /**
   * An unparsable edit leaves the field showing it: typing `x` into `123`
   * and then `4` leaves `1x423` on screen, and deleting the `x` is no
   * growth, so the caret stays at 1.
   */
  lemma TypoDeletionShown()
    ensures var w := TextWatcher(Config('.', ','), "123");
      var w1 := StepShown(w, "1x23", 2).0;
      var w2 := StepShown(w1, "1x423", 3).0;
      && w2.prev == "1x423"
      && StepShown(w2, "1423", 1).1.Rewritten?
      && StepShown(w2, "1423", 1).1.caret == 1
  {
    TypoUnparsable();
    LongerTypoUnparsable();
    TypoFixedParses();
  }

  /** Removing the separator from `a,b`, where neither piece holds one. */
  lemma StripOneSeparator(a: string, b: string, c: char)
    requires c !in a && c !in b
    ensures Strip(a + [c] + b, c) == a + b
  {
    StripAppend(a, [c], c);
    assert Strip([c], c) == [];
    assert Strip(a + [c], c) == a;
    StripAppend(a + [c], b, c);
  }

  lemma LeadingZeroStrips()
    ensures var e := "01" + [','] + "234";
      && Stripped(Config('.', ','), e) == "01234"
      && Fraction(Config('.', ','), e) == ""
      && IndexOf(e, '.') == None
  {
    var e := "01" + [','] + "234";
    assert '.' !in e;
    assert SplitAtFirst(e, '.') == (e, "");
    StripOneSeparator("01", "234", ',');
    assert "01" + "234" == "01234";
  }

  lemma LeadingZeroParses()
    ensures Value(Config('.', ','), "01" + [','] + "234") == Some(1234)
  {
    var t := "01234";
    LeadingZeroStrips();
    assert t[..4] == "0123" && "0123"[..3] == "012" && "012"[..2] == "01" && "01"[..1] == "0";
    assert DigitsValue(t) == 1234;
    assert LongSyntax(t) && Magnitude(t) == t;
  }

  lemma ThousandTwoHundredRenders()
    ensures Render(1234, ',') == "1,234"
    ensures |ToDigits(1234)| == 4
  {
    var t := "1234";
    assert t[..3] == "123" && "123"[..2] == "12" && "12"[..1] == "1";
    assert DigitsValue(t) == 1234;
    ToDigitsOfValue(t);
    assert t[..1] == "1" && t[1..] == "234";
    assert GroupDigits(t, ',') == "1,234";
  }

  /**
   * The corrected rule looks only at the digits of the new value, not at
   * whether this edit added one: typing `0` in front of `1,234` gives
   * `01,234`, which renders as `1,234` again, and the corrected rule moves
   * the caret past the separator that was already there. As written, the
   * stripped `01234` has five characters and the caret stays.
   */
  lemma LeadingZeroCounterexample()
    ensures var w := TextWatcher(Config('.', ','), "1234");
      var e := "01" + [','] + "234";
      && Step(w, e, 1).1 == Rewritten("1,234", 1)
      && StepIntended(w, e, 1).1 == Rewritten("1,234", 2)
  {
    LeadingZeroStrips();
    LeadingZeroParses();
    ThousandTwoHundredRenders();
    GainsSeparatorDigits(1234, ',');
    assert "1,234" + "" == "1,234";
  }
}
