/** Converting a `str.format()` format string into a template (pep/format.py).

  The source scans the format string with a regular expression.  The model
  does not implement the regular expression; it takes the sequence of its
  matches as input, constrained by `Spans` and `Ordered` to what the pattern
  guarantees: matches lie in order inside the string, each made of a run of
  static text followed by one `{key!conv:spec}` field.
 */
module LegacyFormat {
  import opened Wrappers
  import opened Templates
  import opened FString

  /** One match of the pattern: its span, group 1 (static text), group 2 (key),
      group 3 (conversion) and group 4 (format spec). */
  datatype FieldMatch = FieldMatch(
    start: nat,
    end: nat,
    prefix: string,
    key: string,
    conv: Option<string>,
    spec: Option<string>)

  /** The text of the replacement field a match stands for. */
  function FieldText(m: FieldMatch): string {
    "{" + m.key
    + (match m.conv case Some(c) => "!" + c case None => "")
    + (match m.spec case Some(s) => ":" + s case None => "")
    + "}"
  }

  /** The matches lie inside `fmt`, do not overlap, come in order and start
      at or after `pos`. */
  predicate Ordered(fmt: string, ms: seq<FieldMatch>, pos: nat) {
    && pos <= |fmt|
    && (forall i :: 0 <= i < |ms| ==> ms[i].start + |ms[i].prefix| <= ms[i].end <= |fmt|)
    && (|ms| > 0 ==> pos <= ms[0].start)
    && (forall i :: 0 < i < |ms| ==> ms[i - 1].end <= ms[i].start)
  }

  /** The match's groups are the text it spans: its static text, then its field. */
  predicate Spans(fmt: string, m: FieldMatch)
    requires m.start + |m.prefix| <= m.end <= |fmt|
  {
    && fmt[m.start..m.start + |m.prefix|] == m.prefix
    && fmt[m.start + |m.prefix|..m.end] == FieldText(m)
  }

  /** What the pattern guarantees of its matches in `fmt`. */
  predicate Matches(fmt: string, ms: seq<FieldMatch>, pos: nat) {
    Ordered(fmt, ms, pos) && forall i :: 0 <= i < |ms| ==> Spans(fmt, ms[i])
  }

  /** A parsed part: static text, or a field with its index or key, its
      format spec and its conversion. */
  datatype Parsed =
    | PStatic(text: string)
    | PField(index: Option<nat>, key: Option<string>, spec: string, conv: Option<string>)

  datatype Numbering = Unset | Auto | Manual

  const MixedNumbering: string := "cannot switch from automatic field numbering to manual field specification"

  predicate IsDigit(c: char) {
    '0' <= c <= '9'
  }

  /** `key.isdigit()` over ASCII digits. */
  predicate IsDigits(s: string) {
    |s| > 0 && forall i :: 0 <= i < |s| ==> IsDigit(s[i])
  }

  /** `int(s)` for a string of decimal digits. */
  function DigitsValue(s: string): nat
    requires forall i :: 0 <= i < |s| ==> IsDigit(s[i])
  {
    if |s| == 0 then 0
    else
      assert IsDigit(s[|s| - 1]);
      DigitsValue(s[..|s| - 1]) * 10 + (s[|s| - 1] as int - '0' as int)
  }

  /** The decimal text of a natural number. */
  function NatToString(n: nat): (r: string)
    ensures IsDigits(r)
  {
    var d := [('0' as int + n % 10) as char];
    if n < 10 then d else NatToString(n / 10) + d
  }

  lemma {:induction false} NatToStringValue(n: nat)
    ensures DigitsValue(NatToString(n)) == n
  {
    var d := [('0' as int + n % 10) as char];
    if n >= 10 {
      var s := NatToString(n / 10) + d;
      assert s[..|s| - 1] == NatToString(n / 10);
      NatToStringValue(n / 10);
    }
  }

  /** The text after the first "!" of `s`: `s.split("!", maxsplit=1)[-1]`. */
  function AfterBang(s: string): string {
    if |s| == 0 then ""
    else if s[0] == '!' then s[1..]
    else AfterBang(s[1..])
  }

  /** The three kinds of key: an implicit index, an explicit index, a name. */
  function Classify(key: string, counter: nat, mode: Numbering): (r: Result<(Option<nat>, Option<string>, nat, Numbering)>)
    ensures key == "" ==> (r.Ok? <==> mode != Manual)
    ensures key == "" && r.Ok? ==> r.value == (Some(counter), None, counter + 1, Auto)
    ensures IsDigits(key) ==> (r.Ok? <==> mode != Auto)
    ensures IsDigits(key) && r.Ok? ==> r.value == (Some(DigitsValue(key)), None, counter, Manual)
    ensures key != "" && !IsDigits(key) ==> r == Ok((None, Some(key), counter, mode))
    ensures r.Err? ==> r.error == Error(ValueError, MixedNumbering)
  {
    if key == "" then
      if mode == Manual then Err(Error(ValueError, MixedNumbering))
      else Ok((Some(counter), None, counter + 1, Auto))
    else if IsDigits(key) then
      if mode == Auto then Err(Error(ValueError, MixedNumbering))
      else Ok((Some(DigitsValue(key)), None, counter, Manual))
    else Ok((None, Some(key), counter, mode))
  }

  /** The conversion group with an empty tag read as no tag. */
  function ConvOf(m: FieldMatch): Option<string> {
    if m.conv == Some("") then None else m.conv
  }

  /** A format spec that is itself a replacement field, such as "{}" or "{x}". */
  predicate NestedSpec(spec: string) {
    spec != "" && spec[0] == '{' && spec[|spec| - 1] == '}'
  }

  /** The checks made on one match before its key is classified. */
  function CheckMatch(m: FieldMatch): (r: Result<()>)
    ensures r.Ok? <==> ValidConversion(ConvOf(m)) && !NestedSpec(m.spec.GetOr("")) && '!' !in m.key
    ensures r.Err? ==> (r.error.kind == NotImplementedError <==> ValidConversion(ConvOf(m)) && NestedSpec(m.spec.GetOr("")))
    ensures r.Err? ==> r.error.kind == ValueError || r.error.kind == NotImplementedError
  {
    var conv := ConvOf(m);
    if !ValidConversion(conv) then Err(Error(ValueError, "Unknown conversion specifier: " + conv.value))
    else if NestedSpec(m.spec.GetOr("")) then Err(Error(NotImplementedError, "Format spec interpolations are not supported"))
    else if '!' in m.key then Err(Error(ValueError, "Unknown conversion specifier: " + AfterBang(m.key)))
    else Ok(())
  }

  /** The static parts of a gap and of a match's group 1, dropping empty ones. */
  function Statics(gap: string, prefix: string): (r: seq<Parsed>)
    ensures forall i :: 0 <= i < |r| ==> r[i].PStatic? && r[i].text != ""
  {
    (if gap != "" then [PStatic(gap)] else []) + (if prefix != "" then [PStatic(prefix)] else [])
  }

  /** What one match contributes: its field, and the counter and mode after it. */
  datatype Step = Step(field: Parsed, counter: nat, mode: Numbering)

  /** The numbering state after a key: an empty key uses up the next
      automatic index and fixes automatic numbering, a digit key fixes manual
      numbering, a name changes nothing. */
  function Advance(key: string, counter: nat, mode: Numbering): (nat, Numbering) {
    (if key == "" then counter + 1 else counter, NextMode(key, mode))
  }

  /** The checks, then the classification of the key, for one match. */
  function FieldOf(m: FieldMatch, counter: nat, mode: Numbering): (r: Result<Step>)
    ensures r.Ok? <==> CheckMatch(m).Ok? && Classify(m.key, counter, mode).Ok?
    ensures r.Err? && CheckMatch(m).Err? ==> r.error == CheckMatch(m).error
    ensures r.Err? && CheckMatch(m).Ok? ==> r.error == Error(ValueError, MixedNumbering)
    ensures r.Ok? ==> (r.value.counter, r.value.mode) == Advance(m.key, counter, mode)
    ensures r.Ok? ==> var c := Classify(m.key, counter, mode).value;
      r.value == Step(PField(c.0, c.1, m.spec.GetOr(""), ConvOf(m)), c.2, c.3)
  {
    var _ :- CheckMatch(m);
    var c :- Classify(m.key, counter, mode);
    Ok(Step(PField(c.0, c.1, m.spec.GetOr(""), ConvOf(m)), c.2, c.3))
  }

  lemma OrderedTail(fmt: string, ms: seq<FieldMatch>, pos: nat)
    requires Ordered(fmt, ms, pos) && |ms| > 0
    ensures Ordered(fmt, ms[1..], ms[0].end)
  {
    assert forall i :: 0 <= i < |ms| - 1 ==> ms[1..][i] == ms[i + 1];
  }

  lemma MatchesTail(fmt: string, ms: seq<FieldMatch>, pos: nat)
    requires Matches(fmt, ms, pos) && |ms| > 0
    ensures Matches(fmt, ms[1..], ms[0].end)
  {
    OrderedTail(fmt, ms, pos);
    assert forall i :: 0 <= i < |ms| - 1 ==> ms[1..][i] == ms[i + 1];
  }

  /** The loop of `_parse_fmt_string` from the match `ms[0]` on, at `pos`,
      with the auto-numbering counter and the numbering mode. */
  function ParseFrom(fmt: string, ms: seq<FieldMatch>, pos: nat, counter: nat, mode: Numbering): (r: Result<seq<Parsed>>)
    requires Ordered(fmt, ms, pos)
    ensures r.Err? ==> r.error.kind == ValueError || r.error.kind == NotImplementedError
    decreases |ms|
  {
    if |ms| == 0 then
      Ok(if pos < |fmt| then [PStatic(fmt[pos..])] else [])
    else
      var m := ms[0];
      OrderedTail(fmt, ms, pos);
      match FieldOf(m, counter, mode)
      case Err(e) => Err(e)
      case Ok(st) =>
        match ParseFrom(fmt, ms[1..], m.end, st.counter, st.mode)
        case Err(e) => Err(e)
        case Ok(rest) => Ok(Statics(fmt[pos..m.start], m.prefix) + [st.field] + rest)
  }

  /** A successful parse is the first match's parts followed by the parse of the rest. */
  lemma ParseFromUnfold(fmt: string, ms: seq<FieldMatch>, pos: nat, counter: nat, mode: Numbering)
    requires Ordered(fmt, ms, pos) && |ms| > 0
    requires ParseFrom(fmt, ms, pos, counter, mode).Ok?
    ensures Ordered(fmt, ms[1..], ms[0].end)
    ensures var st := FieldOf(ms[0], counter, mode);
      && st.Ok?
      && ParseFrom(fmt, ms[1..], ms[0].end, st.value.counter, st.value.mode).Ok?
      && ParseFrom(fmt, ms, pos, counter, mode).value
         == Statics(fmt[pos..ms[0].start], ms[0].prefix) + [st.value.field]
            + ParseFrom(fmt, ms[1..], ms[0].end, st.value.counter, st.value.mode).value
  {
    OrderedTail(fmt, ms, pos);
  }

  /** `_parse_fmt_string(fmt)`: it fails exactly when some match's checks or
      numbering fail, and then with the error of the first such match. */
  function ParseFmt(fmt: string, ms: seq<FieldMatch>): (r: Result<seq<Parsed>>)
    requires Ordered(fmt, ms, 0)
    ensures r.Ok? <==> AllFieldsOk(ms, 0, Unset)
    ensures r.Err? ==> FirstFieldError(ms, 0, Unset, r.error)
  {
    ParseError(fmt, ms, 0, 0, Unset);
    ParseFrom(fmt, ms, 0, 0, Unset)
  }

  /** The counter and mode in force when match `k` is reached, having
      advanced over the keys of the matches before it. */
  function StateAt(ms: seq<FieldMatch>, k: nat, counter: nat, mode: Numbering): (nat, Numbering)
    requires k <= |ms|
    decreases k
  {
    if k == 0 then (counter, mode)
    else
      var a := Advance(ms[0].key, counter, mode);
      StateAt(ms[1..], k - 1, a.0, a.1)
  }

  /** What match `k` yields in the numbering state it is reached in. */
  function FieldAt(ms: seq<FieldMatch>, k: nat, counter: nat, mode: Numbering): Result<Step>
    requires k < |ms|
  {
    var st := StateAt(ms, k, counter, mode);
    FieldOf(ms[k], st.0, st.1)
  }

  /** `e` is the error of the first match that fails. */
  ghost predicate FirstFieldError(ms: seq<FieldMatch>, counter: nat, mode: Numbering, e: Error) {
    exists k :: 0 <= k < |ms| && FieldAt(ms, k, counter, mode) == Err(e)
      && forall j :: 0 <= j < k ==> FieldAt(ms, j, counter, mode).Ok?
  }

  /** Every match yields a field in the state it is reached in. */
  predicate AllFieldsOk(ms: seq<FieldMatch>, counter: nat, mode: Numbering) {
    forall k :: 0 <= k < |ms| ==> FieldAt(ms, k, counter, mode).Ok?
  }

  /** Match `k + 1` of `ms` is match `k` of the rest, reached from the state after `ms[0]`. */
  lemma FieldAtTail(ms: seq<FieldMatch>, counter: nat, mode: Numbering)
    requires |ms| > 0
    ensures var a := Advance(ms[0].key, counter, mode);
      forall k :: 0 <= k < |ms| - 1 ==> FieldAt(ms, k + 1, counter, mode) == FieldAt(ms[1..], k, a.0, a.1)
  {
    assert forall k :: 0 <= k < |ms| - 1 ==> ms[1..][k] == ms[k + 1];
  }

  /** When the first match succeeds, all succeed exactly when all the rest do. */
  lemma AllFieldsOkTail(ms: seq<FieldMatch>, counter: nat, mode: Numbering)
    requires |ms| > 0 && FieldAt(ms, 0, counter, mode).Ok?
    ensures var a := Advance(ms[0].key, counter, mode);
      AllFieldsOk(ms, counter, mode) <==> AllFieldsOk(ms[1..], a.0, a.1)
  {
    var a := Advance(ms[0].key, counter, mode);
    FieldAtTail(ms, counter, mode);
    if AllFieldsOk(ms[1..], a.0, a.1) {
      forall k | 0 < k < |ms| ensures FieldAt(ms, k, counter, mode).Ok? {
        assert FieldAt(ms, k, counter, mode) == FieldAt(ms[1..], k - 1, a.0, a.1);
      }
    }
  }

  /** When the first match succeeds, the first failure of the rest is the first failure of all. */
  lemma FirstFieldErrorTail(ms: seq<FieldMatch>, counter: nat, mode: Numbering, e: Error)
    requires |ms| > 0 && FieldAt(ms, 0, counter, mode).Ok?
    requires var a := Advance(ms[0].key, counter, mode); FirstFieldError(ms[1..], a.0, a.1, e)
    ensures FirstFieldError(ms, counter, mode, e)
  {
    var a := Advance(ms[0].key, counter, mode);
    FieldAtTail(ms, counter, mode);
    var k :| 0 <= k < |ms| - 1 && FieldAt(ms[1..], k, a.0, a.1) == Err(e)
      && forall j :: 0 <= j < k ==> FieldAt(ms[1..], j, a.0, a.1).Ok?;
    assert FieldAt(ms, k + 1, counter, mode) == Err(e);
    forall j | 0 < j < k + 1 ensures FieldAt(ms, j, counter, mode).Ok? {
      assert FieldAt(ms, j, counter, mode) == FieldAt(ms[1..], j - 1, a.0, a.1);
    }
  }

  /** The parse fails exactly when some match fails, and with the error of
      the first one: the checks of that match, or the numbering conflict it
      raises in the state the matches before it left. */
  lemma {:induction false} ParseError(fmt: string, ms: seq<FieldMatch>, pos: nat, counter: nat, mode: Numbering)
    requires Ordered(fmt, ms, pos)
    ensures ParseFrom(fmt, ms, pos, counter, mode).Ok? <==> AllFieldsOk(ms, counter, mode)
    ensures ParseFrom(fmt, ms, pos, counter, mode).Err? ==> FirstFieldError(ms, counter, mode, ParseFrom(fmt, ms, pos, counter, mode).error)
  {
    if |ms| > 0 {
      var m := ms[0];
      OrderedTail(fmt, ms, pos);
      var f := FieldOf(m, counter, mode);
      assert FieldAt(ms, 0, counter, mode) == f;
      if f.Ok? {
        var a := Advance(m.key, counter, mode);
        ParseError(fmt, ms[1..], m.end, a.0, a.1);
        AllFieldsOkTail(ms, counter, mode);
        var r := ParseFrom(fmt, ms, pos, counter, mode);
        if r.Err? {
          FirstFieldErrorTail(ms, counter, mode, r.error);
        }
      }
    }
  }

  /** "{}{1}": automatic then manual numbering is refused at the second field. */
  lemma AutoThenManual()
    ensures var ms := [FieldMatch(0, 2, "", "", None, None), FieldMatch(2, 5, "", "1", None, None)];
      Matches("{}{1}", ms, 0) && ParseFrom("{}{1}", ms, 0, 0, Unset) == Err(Error(ValueError, MixedNumbering))
  {
    var fmt := "{}{1}";
    var m0 := FieldMatch(0, 2, "", "", None, None);
    var m1 := FieldMatch(2, 5, "", "1", None, None);
    AutoThenManualMatches(fmt, m0, m1);
    assert IsDigits("1");
    assert FieldOf(m0, 0, Unset) == Ok(Step(PField(Some(0), None, "", None), 1, Auto));
    assert FieldOf(m1, 1, Auto) == Err(Error(ValueError, MixedNumbering));
    assert ParseFrom(fmt, [m1], 2, 1, Auto) == Err(Error(ValueError, MixedNumbering));
    assert [m0, m1][1..] == [m1];
  }

  lemma AutoThenManualMatches(fmt: string, m0: FieldMatch, m1: FieldMatch)
    requires fmt == "{}{1}" && m0 == FieldMatch(0, 2, "", "", None, None) && m1 == FieldMatch(2, 5, "", "1", None, None)
    ensures Matches(fmt, [m0, m1], 0)
  {
    assert FieldText(m0) == "{}" && FieldText(m1) == "{1}";
    assert fmt[0..0] == "" && fmt[0..2] == "{}" && fmt[2..2] == "" && fmt[2..5] == "{1}";
  }

  /** A format string that is one field, with no text around it, is matched by that field alone. */
  lemma OneFieldMatches(fmt: string, m: FieldMatch)
    requires m.start == 0 && m.prefix == "" && fmt == FieldText(m) && m.end == |fmt|
    ensures Matches(fmt, [m], 0)
  {
    assert fmt[0..0] == "" && fmt[0..|fmt|] == fmt;
  }

  /** "{name!z}": the pattern leaves an unknown conversion in the key, and it
      is refused with a ValueError naming it. */
  lemma UnknownConversionInKey()
    ensures var ms := [FieldMatch(0, 8, "", "name!z", None, None)];
      Matches("{name!z}", ms, 0) && ParseFrom("{name!z}", ms, 0, 0, Unset) == Err(Error(ValueError, "Unknown conversion specifier: z"))
  {
    var m := FieldMatch(0, 8, "", "name!z", None, None);
    assert FieldText(m) == "{name!z}";
    OneFieldMatches("{name!z}", m);
    assert AfterBang("name!z") == "z";
    assert CheckMatch(m) == Err(Error(ValueError, "Unknown conversion specifier: z"));
  }

  /** "{name:{fmt}}": a format spec that is itself a field is not supported. */
  lemma NestedSpecRefused()
    ensures var ms := [FieldMatch(0, 12, "", "name", None, Some("{fmt}"))];
      Matches("{name:{fmt}}", ms, 0)
      && ParseFrom("{name:{fmt}}", ms, 0, 0, Unset) == Err(Error(NotImplementedError, "Format spec interpolations are not supported"))
  {
    var m := FieldMatch(0, 12, "", "name", None, Some("{fmt}"));
    assert FieldText(m) == "{name:{fmt}}";
    OneFieldMatches("{name:{fmt}}", m);
    assert NestedSpec("{fmt}");
  }

  // ---------------------------------------------------------------------------
  // Properties of the parser
  // ---------------------------------------------------------------------------

  function Fields(ps: seq<Parsed>): (r: seq<Parsed>)
    ensures forall i :: 0 <= i < |r| ==> r[i].PField?
  {
    if |ps| == 0 then []
    else (if ps[0].PField? then [ps[0]] else []) + Fields(ps[1..])
  }

  lemma {:induction false} FieldsAppend(a: seq<Parsed>, b: seq<Parsed>)
    ensures Fields(a + b) == Fields(a) + Fields(b)
  {
    if |a| == 0 {
      assert a + b == b;
    } else {
      assert (a + b)[1..] == a[1..] + b;
      FieldsAppend(a[1..], b);
    }
  }

  lemma {:induction false} NoFields(ps: seq<Parsed>)
    requires forall i :: 0 <= i < |ps| ==> ps[i].PStatic?
    ensures Fields(ps) == []
  {
    if |ps| > 0 {
      NoFields(ps[1..]);
    }
  }

  /** Any static text the parser emits is non-empty. */
  predicate StaticsNonEmpty(ps: seq<Parsed>) {
    forall i :: 0 <= i < |ps| && ps[i].PStatic? ==> ps[i].text != ""
  }

  /** The numbering mode `mode` and the keys of `ms` can be used together. */
  predicate Compatible(mode: Numbering, ms: seq<FieldMatch>) {
    var auto := exists i :: 0 <= i < |ms| && ms[i].key == "";
    var manual := exists i :: 0 <= i < |ms| && IsDigits(ms[i].key);
    && (mode == Manual ==> !auto)
    && (mode == Auto ==> !manual)
    && !(auto && manual)
  }

  /** The mode after classifying a key of the given kind. */
  function NextMode(key: string, mode: Numbering): Numbering {
    if key == "" then Auto else if IsDigits(key) then Manual else mode
  }

  /** The parse succeeds exactly when every match passes its checks and
      automatic and manual numbering are not mixed. */
  lemma {:induction false} ParseSucceeds(fmt: string, ms: seq<FieldMatch>, pos: nat, counter: nat, mode: Numbering)
    requires Ordered(fmt, ms, pos)
    ensures ParseFrom(fmt, ms, pos, counter, mode).Ok? <==> AllChecked(ms) && Compatible(mode, ms)
  {
    if |ms| > 0 {
      var m := ms[0];
      var c := Classify(m.key, counter, mode);
      ParseOkStep(fmt, ms, pos, counter, mode);
      AllCheckedCons(ms);
      if c.Ok? {
        ParseSucceeds(fmt, ms[1..], m.end, c.value.2, c.value.3);
        CompatibleStep(mode, ms);
      } else {
        assert !Compatible(mode, ms) by {
          if m.key == "" { assert mode == Manual; } else { assert IsDigits(m.key) && mode == Auto; }
        }
      }
    }
  }

  /** Every match passes the checks of `_parse_fmt_string`. */
  predicate AllChecked(ms: seq<FieldMatch>) {
    forall i :: 0 <= i < |ms| ==> CheckMatch(ms[i]).Ok?
  }

  lemma AllCheckedCons(ms: seq<FieldMatch>)
    requires |ms| > 0
    ensures AllChecked(ms) <==> CheckMatch(ms[0]).Ok? && AllChecked(ms[1..])
  {
    assert forall i :: 0 < i < |ms| ==> ms[i] == ms[1..][i - 1];
  }

  /** The parse from the first match succeeds iff that match's field and the
      parse of the rest both do. */
  lemma ParseOkStep(fmt: string, ms: seq<FieldMatch>, pos: nat, counter: nat, mode: Numbering)
    requires Ordered(fmt, ms, pos) && |ms| > 0
    ensures Ordered(fmt, ms[1..], ms[0].end)
    ensures ParseFrom(fmt, ms, pos, counter, mode).Ok? <==>
      var st := FieldOf(ms[0], counter, mode);
      st.Ok? && ParseFrom(fmt, ms[1..], ms[0].end, st.value.counter, st.value.mode).Ok?
  {
    OrderedTail(fmt, ms, pos);
  }

  lemma CompatibleStep(mode: Numbering, ms: seq<FieldMatch>)
    requires |ms| > 0
    requires ms[0].key == "" ==> mode != Manual
    requires IsDigits(ms[0].key) ==> mode != Auto
    ensures Compatible(mode, ms) <==> Compatible(NextMode(ms[0].key, mode), ms[1..])
  {
    var rest := ms[1..];
    assert forall i :: 0 < i < |ms| ==> ms[i] == rest[i - 1];
    var auto := exists i :: 0 <= i < |ms| && ms[i].key == "";
    var manual := exists i :: 0 <= i < |ms| && IsDigits(ms[i].key);
    var auto' := exists i :: 0 <= i < |rest| && rest[i].key == "";
    var manual' := exists i :: 0 <= i < |rest| && IsDigits(rest[i].key);
    assert auto <==> ms[0].key == "" || auto' by {
      if auto' { var i :| 0 <= i < |rest| && rest[i].key == ""; assert ms[i + 1].key == ""; }
    }
    assert manual <==> IsDigits(ms[0].key) || manual' by {
      if manual' { var i :| 0 <= i < |rest| && IsDigits(rest[i].key); assert ms[i + 1] == rest[i]; }
    }
  }

  /** How many of the keys in `ms` are empty. */
  function CountAuto(ms: seq<FieldMatch>): nat {
    if |ms| == 0 then 0 else (if ms[0].key == "" then 1 else 0) + CountAuto(ms[1..])
  }

  /** Field `f` is what match `m` parses to when the next automatic index is
      `auto`: an empty key takes that index, a digit key is its own index, any
      other key is kept as a name; the format spec defaults to "" and an
      empty conversion tag reads as none. */
  predicate FieldFor(f: Parsed, m: FieldMatch, auto: nat) {
    && f.PField?
    && f.spec == m.spec.GetOr("")
    && f.conv == ConvOf(m)
    && (m.key == "" ==> f.index == Some(auto) && f.key == None)
    && (IsDigits(m.key) ==> f.index == Some(DigitsValue(m.key)) && f.key == None)
    && (m.key != "" && !IsDigits(m.key) ==> f.index == None && f.key == Some(m.key))
  }

  /** `fs` are the fields `ms` parse to, one to one and in order, when the
      next automatic index is `auto`. */
  predicate FieldsFor(fs: seq<Parsed>, ms: seq<FieldMatch>, auto: nat)
    decreases |ms|
  {
    && |fs| == |ms|
    && (|ms| > 0 ==> FieldFor(fs[0], ms[0], auto) && FieldsFor(fs[1..], ms[1..], auto + CountAuto([ms[0]])))
  }

  /** The fields are the matches, one to one and in order; the automatic
      indices count only the empty keys before them. */
  lemma {:induction false} ParseFields(fmt: string, ms: seq<FieldMatch>, pos: nat, counter: nat, mode: Numbering)
    requires Ordered(fmt, ms, pos)
    requires ParseFrom(fmt, ms, pos, counter, mode).Ok?
    ensures FieldsFor(Fields(ParseFrom(fmt, ms, pos, counter, mode).value), ms, counter)
  {
    var r := ParseFrom(fmt, ms, pos, counter, mode).value;
    if |ms| == 0 {
      assert Fields(r) == [] by {
        if pos < |fmt| { assert r[1..] == []; }
      }
    } else {
      var m := ms[0];
      ParseFromUnfold(fmt, ms, pos, counter, mode);
      var st := FieldOf(m, counter, mode).value;
      var rest := ParseFrom(fmt, ms[1..], m.end, st.counter, st.mode).value;
      ParseFields(fmt, ms[1..], m.end, st.counter, st.mode);
      FieldOfFor(m, counter, mode);
      var statics := Statics(fmt[pos..m.start], m.prefix);
      FieldsOfStep(statics, st.field, rest);
      var fs := [st.field] + Fields(rest);
      assert fs[0] == st.field && fs[1..] == Fields(rest);
    }
  }

  lemma FieldOfFor(m: FieldMatch, counter: nat, mode: Numbering)
    requires FieldOf(m, counter, mode).Ok?
    ensures FieldFor(FieldOf(m, counter, mode).value.field, m, counter)
    ensures FieldOf(m, counter, mode).value.counter == counter + CountAuto([m])
  {
    assert [m][1..] == [];
  }

  /** The correspondence position by position: field `i` takes the automatic
      index after the empty keys before match `i`. */
  lemma {:induction false} FieldsForIndexed(fs: seq<Parsed>, ms: seq<FieldMatch>, auto: nat)
    requires FieldsFor(fs, ms, auto)
    ensures |fs| == |ms|
    ensures forall i :: 0 <= i < |ms| ==> FieldFor(fs[i], ms[i], auto + CountAuto(ms[..i]))
    decreases |ms|
  {
    if |ms| > 0 {
      FieldsForIndexed(fs[1..], ms[1..], auto + CountAuto([ms[0]]));
      assert ms[..1] == [ms[0]];
      FieldsShift(fs, ms, fs[0], fs[1..], auto, auto + CountAuto([ms[0]]));
    }
  }

  /** With only automatic numbering, field `j` has index `auto + j`. */
  lemma {:induction false} FieldsForAuto(fs: seq<Parsed>, ms: seq<FieldMatch>, auto: nat)
    requires FieldsFor(fs, ms, auto)
    requires forall i :: 0 <= i < |ms| ==> ms[i].key == ""
    ensures |fs| == |ms|
    ensures forall j :: 0 <= j < |fs| ==> fs[j].PField? && fs[j].index == Some(auto + j)
    decreases |ms|
  {
    if |ms| > 0 {
      assert [ms[0]][1..] == [];
      assert CountAuto([ms[0]]) == 1;
      FieldsForAuto(fs[1..], ms[1..], auto + 1);
      forall j | 0 < j < |fs| ensures fs[j].PField? && fs[j].index == Some(auto + j) {
        assert fs[j] == fs[1..][j - 1];
      }
    }
  }

  lemma FieldsOfStep(statics: seq<Parsed>, f: Parsed, rest: seq<Parsed>)
    requires forall i :: 0 <= i < |statics| ==> statics[i].PStatic?
    requires f.PField?
    ensures Fields(statics + [f] + rest) == [f] + Fields(rest)
  {
    var tail := [f] + rest;
    NoFields(statics);
    FieldsAppend(statics, tail);
    FieldsCons(f, rest);
    ConcatAssoc(statics, [f], rest);
  }

  lemma FieldsCons(f: Parsed, rest: seq<Parsed>)
    requires f.PField?
    ensures Fields([f] + rest) == [f] + Fields(rest)
  {
    var s := [f] + rest;
    assert s[0] == f && s[1..] == rest;
  }

  /** The correspondence for the first match and for the rest make the
      correspondence for all of them. */
  lemma FieldsShift(fs: seq<Parsed>, ms: seq<FieldMatch>, f: Parsed, tail: seq<Parsed>, counter: nat, counter': nat)
    requires |ms| > 0 && fs == [f] + tail && |tail| == |ms| - 1
    requires FieldFor(f, ms[0], counter)
    requires counter' == counter + CountAuto(ms[..1])
    requires forall i :: 0 <= i < |tail| ==> FieldFor(tail[i], ms[1..][i], counter' + CountAuto(ms[1..][..i]))
    ensures forall i :: 0 <= i < |ms| ==> FieldFor(fs[i], ms[i], counter + CountAuto(ms[..i]))
  {
    assert ms[..0] == [];
    forall i | 0 < i < |ms|
      ensures FieldFor(fs[i], ms[i], counter + CountAuto(ms[..i]))
    {
      CountAutoSplit(ms, i);
      assert ms[1..][i - 1] == ms[i] && fs[i] == tail[i - 1];
    }
  }

  /** The empty keys before match `i` are those of the first match and those
      between it and `i`. */
  lemma CountAutoSplit(ms: seq<FieldMatch>, i: nat)
    requires 0 < i <= |ms|
    ensures CountAuto(ms[..i]) == CountAuto(ms[..1]) + CountAuto(ms[1..][..i - 1])
  {
    var p := ms[..i];
    assert p[1..] == ms[1..][..i - 1];
    assert p[0] == ms[0];
    assert ms[..1] == [ms[0]] && [ms[0]][1..] == [];
  }

  /** The static parts the parser emits are never empty. */
  lemma {:induction false} ParseStaticsNonEmpty(fmt: string, ms: seq<FieldMatch>, pos: nat, counter: nat, mode: Numbering)
    requires Ordered(fmt, ms, pos)
    requires ParseFrom(fmt, ms, pos, counter, mode).Ok?
    ensures StaticsNonEmpty(ParseFrom(fmt, ms, pos, counter, mode).value)
  {
    if |ms| > 0 {
      var m := ms[0];
      var c := Classify(m.key, counter, mode).value;
      ParseStaticsNonEmpty(fmt, ms[1..], m.end, c.2, c.3);
    }
  }

  /** The parts put back together, each field written as the next of `texts`. */
  function Reassemble(ps: seq<Parsed>, texts: seq<string>): string {
    if |ps| == 0 then ""
    else if ps[0].PStatic? then ps[0].text + Reassemble(ps[1..], texts)
    else if |texts| == 0 then Reassemble(ps[1..], texts)
    else texts[0] + Reassemble(ps[1..], texts[1..])
  }

  /** The texts of the fields of the matches, in order. */
  function FieldTexts(ms: seq<FieldMatch>): (r: seq<string>)
    ensures |r| == |ms|
  {
    if |ms| == 0 then [] else [FieldText(ms[0])] + FieldTexts(ms[1..])
  }

  /** Nothing of the format string is lost: the static parts, with each field
      written back as the text it was parsed from, are the format string. */
  lemma {:induction false} ParseRoundTrip(fmt: string, ms: seq<FieldMatch>, pos: nat, counter: nat, mode: Numbering)
    requires Matches(fmt, ms, pos)
    requires ParseFrom(fmt, ms, pos, counter, mode).Ok?
    ensures Reassemble(ParseFrom(fmt, ms, pos, counter, mode).value, FieldTexts(ms)) == fmt[pos..]
  {
    if |ms| == 0 {
      var r := ParseFrom(fmt, ms, pos, counter, mode).value;
      if pos < |fmt| {
        assert r[1..] == [];
        assert fmt[pos..] + "" == fmt[pos..];
      }
    } else {
      var m := ms[0];
      ParseFromUnfold(fmt, ms, pos, counter, mode);
      MatchesTail(fmt, ms, pos);
      var st := FieldOf(m, counter, mode).value;
      var rest := ParseFrom(fmt, ms[1..], m.end, st.counter, st.mode).value;
      ParseRoundTrip(fmt, ms[1..], m.end, st.counter, st.mode);
      assert FieldTexts(ms) == [FieldText(m)] + FieldTexts(ms[1..]);
      assert Spans(fmt, m);
      RoundTripCons(fmt, pos, m, st.field, rest, FieldTexts(ms[1..]), ParseFrom(fmt, ms, pos, counter, mode).value);
    }
  }

  /** The round trip of one match, given the round trip of the rest. */
  lemma RoundTripCons(fmt: string, pos: nat, m: FieldMatch, field: Parsed, rest: seq<Parsed>,
                      restTexts: seq<string>, r: seq<Parsed>)
    requires pos <= m.start && m.start + |m.prefix| <= m.end <= |fmt|
    requires Spans(fmt, m)
    requires field.PField?
    requires Reassemble(rest, restTexts) == fmt[m.end..]
    requires r == Statics(fmt[pos..m.start], m.prefix) + [field] + rest
    ensures Reassemble(r, [FieldText(m)] + restTexts) == fmt[pos..]
  {
    var ft := FieldText(m);
    var texts := [ft] + restTexts;
    assert texts[1..] == restTexts;
    RoundTripStep(fmt[pos..m.start], m.prefix, ft, fmt[m.end..], field, rest, texts, r);
    SplitText(fmt, pos, m.start, m.start + |m.prefix|, m.end, m.prefix, ft);
  }

  /** One match of the round trip: gap, static text and field text, then the rest. */
  lemma RoundTripStep(gap: string, prefix: string, ft: string, tail: string,
                      field: Parsed, rest: seq<Parsed>, texts: seq<string>, r: seq<Parsed>)
    requires field.PField? && |texts| > 0 && texts[0] == ft
    requires Reassemble(rest, texts[1..]) == tail
    requires r == Statics(gap, prefix) + [field] + rest
    ensures Reassemble(r, texts) == gap + prefix + ft + tail
  {
    var ps := [field] + rest;
    ReassembleField(field, rest, texts);
    assert Reassemble(ps, texts) == ft + tail;
    ReassembleStatics(gap, prefix, ps, texts);
    ConcatAssoc(Statics(gap, prefix), [field], rest);
    ConcatAssoc(gap + prefix, ft, tail);
  }

  lemma ConcatAssoc<T>(a: seq<T>, b: seq<T>, c: seq<T>)
    ensures a + (b + c) == a + b + c
  {
  }

  lemma ReassembleField(f: Parsed, rest: seq<Parsed>, texts: seq<string>)
    requires f.PField? && |texts| > 0
    ensures Reassemble([f] + rest, texts) == texts[0] + Reassemble(rest, texts[1..])
  {
    assert ([f] + rest)[1..] == rest;
  }

  /** `s[a..]` cut at `b`, `c` and `d`, the middle pieces being `x` and `y`. */
  lemma SplitText(s: string, a: nat, b: nat, c: nat, d: nat, x: string, y: string)
    requires a <= b <= c <= d <= |s|
    requires s[b..c] == x && s[c..d] == y
    ensures s[a..] == s[a..b] + x + y + s[d..]
  {
    assert s[a..] == s[a..b] + s[b..c] + s[c..d] + s[d..];
  }

  lemma ReassembleStatics(gap: string, prefix: string, ps: seq<Parsed>, texts: seq<string>)
    ensures Reassemble(Statics(gap, prefix) + ps, texts) == gap + prefix + Reassemble(ps, texts)
  {
    var s := if prefix != "" then [PStatic(prefix)] + ps else ps;
    ReassembleStatic(prefix, ps, texts);
    var g := if gap != "" then [PStatic(gap)] + s else s;
    ReassembleStatic(gap, s, texts);
    assert Statics(gap, prefix) + ps == g;
    assert gap + (prefix + Reassemble(ps, texts)) == gap + prefix + Reassemble(ps, texts);
  }

  /** A static part, when kept, reassembles as its text. */
  lemma ReassembleStatic(text: string, ps: seq<Parsed>, texts: seq<string>)
    ensures Reassemble(if text != "" then [PStatic(text)] + ps else ps, texts) == text + Reassemble(ps, texts)
  {
    if text != "" {
      assert ([PStatic(text)] + ps)[1..] == ps;
    } else {
      assert text + Reassemble(ps, texts) == Reassemble(ps, texts);
    }
  }

  // ---------------------------------------------------------------------------
  // from_format
  // ---------------------------------------------------------------------------

  /** One parsed part as a template argument: static text as is, a field
      resolved against the positional and keyword arguments. */
  function Resolve(b: Builtins, p: Parsed, args: seq<Value>, kwargs: map<string, Value>): (r: Result<Part>)
    ensures p.PStatic? ==> r == Ok(Lit(p.text))
    ensures p.PField? && p.index.Some? ==> (r.Ok? <==> p.index.value < |args|)
    ensures p.PField? && p.index.Some? && r.Ok? ==> r.value == Interp(Interpolation(
      args[p.index.value], "args[" + NatToString(p.index.value) + "]", p.conv, p.spec))
    ensures p.PField? && p.index.Some? && r.Err? ==> r.error.kind == IndexError
    ensures p.PField? && p.index.None? && p.key.Some? ==> (r.Ok? <==> p.key.value in kwargs)
    ensures p.PField? && p.index.None? && p.key.Some? && r.Ok? ==> r.value == Interp(Interpolation(
      kwargs[p.key.value], "kwargs[" + b.repr(Str(p.key.value)) + "]", p.conv, p.spec))
    ensures p.PField? && p.index.None? && p.key.Some? && r.Err? ==> r.error == Error(KeyError, p.key.value)
  {
    match p
    case PStatic(s) => Ok(Lit(s))
    case PField(index, key, spec, conv) =>
      match index
      case Some(i) =>
        if i >= |args| then
          Err(Error(IndexError, "Replacement index " + NatToString(i) + " out of range for positional args tuple"))
        else
          Ok(Interp(Interpolation(args[i], "args[" + NatToString(i) + "]", conv, spec)))
      case None =>
        match key
        case None => Err(Error(AssertionError, ""))
        case Some(k) =>
          if k !in kwargs then Err(Error(KeyError, k))
          else Ok(Interp(Interpolation(kwargs[k], "kwargs[" + b.repr(Str(k)) + "]", conv, spec)))
  }

  /** `e` is the error of the first part that does not resolve. */
  ghost predicate FirstResolveError(b: Builtins, ps: seq<Parsed>, args: seq<Value>, kwargs: map<string, Value>, e: Error) {
    exists k :: 0 <= k < |ps| && Resolve(b, ps[k], args, kwargs) == Err(e)
      && forall j :: 0 <= j < k ==> Resolve(b, ps[j], args, kwargs).Ok?
  }

  /** `f` applied to each of `xs` in order, the first failure aborting. */
  function MapAll<A, B>(f: A -> Result<B>, xs: seq<A>): (r: Result<seq<B>>)
    ensures r.Ok? <==> forall i :: 0 <= i < |xs| ==> f(xs[i]).Ok?
    ensures r.Ok? ==> |r.value| == |xs| && forall i :: 0 <= i < |xs| ==> r.value[i] == f(xs[i]).value
    ensures r.Err? ==>
      exists k :: 0 <= k < |xs| && f(xs[k]) == Err(r.error) && forall j :: 0 <= j < k ==> f(xs[j]).Ok?
  {
    if |xs| == 0 then Ok([])
    else
      assert forall i :: 0 < i < |xs| ==> xs[i] == xs[1..][i - 1];
      match f(xs[0])
      case Err(e) => Err(e)
      case Ok(y) =>
        match MapAll(f, xs[1..])
        case Err(e) =>
          var k :| 0 <= k < |xs[1..]| && f(xs[1..][k]) == Err(e) && forall j :: 0 <= j < k ==> f(xs[1..][j]).Ok?;
          assert f(xs[k + 1]) == Err(e);
          Err(e)
        case Ok(rest) => Ok([y] + rest)
  }

  /** Resolving every part in order; the first failure aborts. */
  function ResolveAll(b: Builtins, ps: seq<Parsed>, args: seq<Value>, kwargs: map<string, Value>): (r: Result<seq<Part>>)
    ensures r.Ok? <==> forall i :: 0 <= i < |ps| ==> Resolve(b, ps[i], args, kwargs).Ok?
    ensures r.Ok? ==> |r.value| == |ps|
    ensures r.Ok? ==> forall i :: 0 <= i < |ps| ==> r.value[i] == Resolve(b, ps[i], args, kwargs).value
    ensures r.Err? ==> FirstResolveError(b, ps, args, kwargs, r.error)
  {
    MapAll(p => Resolve(b, p, args, kwargs), ps)
  }

  /** `from_format(fmt, *args, **kwargs)`, as the sequence of arguments it
      hands to the `Template` constructor. */
  function FromFormat(b: Builtins, fmt: string, ms: seq<FieldMatch>, args: seq<Value>, kwargs: map<string, Value>)
    : (r: Result<seq<Part>>)
    requires Ordered(fmt, ms, 0)
    ensures r.Ok? <==> && ParseFmt(fmt, ms).Ok?
                       && forall i :: 0 <= i < |ParseFmt(fmt, ms).value| ==>
                            Resolve(b, ParseFmt(fmt, ms).value[i], args, kwargs).Ok?
    ensures ParseFmt(fmt, ms).Err? ==> r == Err(ParseFmt(fmt, ms).error)
    ensures r.Ok? ==> var ps := ParseFmt(fmt, ms).value;
      |r.value| == |ps| && forall i :: 0 <= i < |ps| ==> r.value[i] == Resolve(b, ps[i], args, kwargs).value
    ensures r.Err? && ParseFmt(fmt, ms).Ok? ==> FirstResolveError(b, ParseFmt(fmt, ms).value, args, kwargs, r.error)
  {
    var ps :- ParseFmt(fmt, ms);
    ResolveAll(b, ps, args, kwargs)
  }

  /** With automatic numbering only and one positional argument per field,
      the interpolations carry the arguments in order. */
  lemma FromFormatPositional(b: Builtins, fmt: string, ms: seq<FieldMatch>, args: seq<Value>, kwargs: map<string, Value>)
    requires Ordered(fmt, ms, 0)
    requires forall i :: 0 <= i < |ms| ==> ms[i].key == "" && CheckMatch(ms[i]).Ok?
    requires |args| == |ms|
    ensures FromFormat(b, fmt, ms, args, kwargs).Ok?
    ensures var ps := FromFormat(b, fmt, ms, args, kwargs).value;
            |Interpolations(ps)| == |args|
            && forall i :: 0 <= i < |args| ==>
                 Interpolations(ps)[i].value == args[i] && Interpolations(ps)[i].expression == "args[" + NatToString(i) + "]"
  {
    PositionalParse(fmt, ms);
    ResolvePositional(b, ParseFmt(fmt, ms).value, args, kwargs);
  }

  /** Automatic numbering only: the parse succeeds and numbers the fields 0, 1, 2, ... */
  lemma PositionalParse(fmt: string, ms: seq<FieldMatch>)
    requires Ordered(fmt, ms, 0)
    requires forall i :: 0 <= i < |ms| ==> ms[i].key == "" && CheckMatch(ms[i]).Ok?
    ensures ParseFmt(fmt, ms).Ok?
    ensures var fs := Fields(ParseFmt(fmt, ms).value);
            |fs| == |ms| && forall j :: 0 <= j < |fs| ==> fs[j].index == Some(j)
  {
    ParseSucceeds(fmt, ms, 0, 0, Unset);
    ParseFields(fmt, ms, 0, 0, Unset);
    FieldsForAuto(Fields(ParseFmt(fmt, ms).value), ms, 0);
  }

  /** Parts whose fields are numbered 0, 1, 2, ... resolve against as many
      positional arguments to interpolations of those arguments. */
  lemma ResolvePositional(b: Builtins, parsed: seq<Parsed>, args: seq<Value>, kwargs: map<string, Value>)
    requires |Fields(parsed)| == |args|
    requires forall j :: 0 <= j < |Fields(parsed)| ==> Fields(parsed)[j].index == Some(j)
    ensures ResolveAll(b, parsed, args, kwargs).Ok?
    ensures var ps := ResolveAll(b, parsed, args, kwargs).value;
            |Interpolations(ps)| == |args|
            && forall i :: 0 <= i < |args| ==>
                 Interpolations(ps)[i].value == args[i] && Interpolations(ps)[i].expression == "args[" + NatToString(i) + "]"
  {
    AllPositional(b, parsed, args, kwargs);
    ResolvedParts(b, parsed, args, kwargs);
    ResolvedFromStart(parsed, args, ResolveAll(b, parsed, args, kwargs).value);
  }

  /** `ResolvedFrom` from the first positional argument on. */
  lemma ResolvedFromStart(parsed: seq<Parsed>, args: seq<Value>, ps: seq<Part>)
    requires |ps| == |parsed|
    requires forall i :: 0 <= i < |parsed| ==> PositionalPart(args, parsed[i], ps[i])
    requires |Fields(parsed)| == |args|
    requires forall j :: 0 <= j < |Fields(parsed)| ==> Fields(parsed)[j].index == Some(j)
    ensures |Interpolations(ps)| == |args|
    ensures forall i :: 0 <= i < |args| ==>
      Interpolations(ps)[i].value == args[i] && Interpolations(ps)[i].expression == "args[" + NatToString(i) + "]"
  {
    ResolvedFrom(parsed, args, ps, 0);
  }

  lemma AllPositional(b: Builtins, parsed: seq<Parsed>, args: seq<Value>, kwargs: map<string, Value>)
    requires |Fields(parsed)| == |args|
    requires forall j :: 0 <= j < |Fields(parsed)| ==> Fields(parsed)[j].index == Some(j)
    ensures forall i :: 0 <= i < |parsed| ==> ResolvesPositionally(b, parsed[i], args, kwargs)
  {
    var fs := Fields(parsed);
    forall i | 0 <= i < |parsed| ensures ResolvesPositionally(b, parsed[i], args, kwargs) {
      FieldIndexBound(parsed, fs, |args|, i);
      PositionalResolve(b, parsed[i], args, kwargs);
    }
  }

  lemma ResolvedParts(b: Builtins, parsed: seq<Parsed>, args: seq<Value>, kwargs: map<string, Value>)
    requires forall i :: 0 <= i < |parsed| ==> ResolvesPositionally(b, parsed[i], args, kwargs)
    ensures ResolveAll(b, parsed, args, kwargs).Ok?
    ensures |ResolveAll(b, parsed, args, kwargs).value| == |parsed|
    ensures forall i :: 0 <= i < |parsed| ==> PositionalPart(args, parsed[i], ResolveAll(b, parsed, args, kwargs).value[i])
  {
    var ps := ResolveAll(b, parsed, args, kwargs).value;
    forall i | 0 <= i < |parsed| ensures PositionalPart(args, parsed[i], ps[i]) {
      assert ps[i] == Resolve(b, parsed[i], args, kwargs).value;
    }
  }

  /** Part `p` resolves, and to the interpolation of the argument its index names. */
  predicate ResolvesPositionally(b: Builtins, p: Parsed, args: seq<Value>, kwargs: map<string, Value>) {
    Resolve(b, p, args, kwargs).Ok? && PositionalPart(args, p, Resolve(b, p, args, kwargs).value)
  }

  lemma PositionalResolve(b: Builtins, p: Parsed, args: seq<Value>, kwargs: map<string, Value>)
    requires p.PField? ==> p.index.Some? && p.index.value < |args|
    ensures ResolvesPositionally(b, p, args, kwargs)
  {
  }

  /** A resolved part whose field has index `i` carries `args[i]` under the expression "args[i]". */
  predicate PositionalPart(args: seq<Value>, f: Parsed, p: Part) {
    match f
    case PStatic(_) => p.Lit?
    case PField(index, _, spec, conv) =>
      index.Some? && index.value < |args|
      && p == Interp(Interpolation(args[index.value], "args[" + NatToString(index.value) + "]", conv, spec))
  }

  /** The induction step of `ResolvedFrom` when the first part is a field. */
  lemma ResolvedFromField(args: seq<Value>, ps: seq<Part>, fs: seq<Parsed>, base: nat)
    requires |ps| > 0 && |fs| > 0 && base + |fs| <= |args|
    requires ps[0].Interp? && ps[0].interpolation.value == args[base]
    requires ps[0].interpolation.expression == "args[" + NatToString(base) + "]"
    requires |Interpolations(ps[1..])| == |fs| - 1
    requires forall j :: 0 <= j < |fs| - 1 ==>
      Interpolations(ps[1..])[j].value == args[base + 1 + j]
      && Interpolations(ps[1..])[j].expression == "args[" + NatToString(base + 1 + j) + "]"
    ensures |Interpolations(ps)| == |fs|
    ensures forall j :: 0 <= j < |fs| ==>
      Interpolations(ps)[j].value == args[base + j] && Interpolations(ps)[j].expression == "args[" + NatToString(base + j) + "]"
  {
    var xs := Interpolations(ps);
    assert xs == [ps[0].interpolation] + Interpolations(ps[1..]);
    forall j | 0 < j < |fs|
      ensures xs[j].value == args[base + j]
      ensures xs[j].expression == "args[" + NatToString(base + j) + "]"
    {
      assert xs[j] == Interpolations(ps[1..])[j - 1];
      assert base + 1 + (j - 1) == base + j;
    }
  }

  /** A field of `ps` whose index is below `n` when every field's is. */
  lemma {:induction false} FieldIndexBound(ps: seq<Parsed>, fs: seq<Parsed>, n: nat, i: nat)
    requires fs == Fields(ps) && i < |ps|
    requires forall j :: 0 <= j < |fs| ==> fs[j].index.Some? && fs[j].index.value < n
    ensures ps[i].PField? ==> ps[i].index.Some? && ps[i].index.value < n
  {
    if i == 0 {
      if ps[0].PField? { assert fs[0] == ps[0]; }
    } else {
      var head := if ps[0].PField? then [ps[0]] else [];
      assert fs == head + Fields(ps[1..]);
      assert forall j :: 0 <= j < |Fields(ps[1..])| ==> Fields(ps[1..])[j] == fs[j + |head|];
      FieldIndexBound(ps[1..], Fields(ps[1..]), n, i - 1);
    }
  }

  /** The interpolations of the resolved parts follow the fields' indices. */
  lemma {:induction false} ResolvedFrom(parsed: seq<Parsed>, args: seq<Value>, ps: seq<Part>, base: nat)
    requires |ps| == |parsed|
    requires forall i :: 0 <= i < |parsed| ==> PositionalPart(args, parsed[i], ps[i])
    requires forall j :: 0 <= j < |Fields(parsed)| ==> Fields(parsed)[j].index == Some(base + j)
    requires base + |Fields(parsed)| <= |args|
    ensures |Interpolations(ps)| == |Fields(parsed)|
    ensures forall j :: 0 <= j < |Fields(parsed)| ==>
      Interpolations(ps)[j].value == args[base + j] && Interpolations(ps)[j].expression == "args[" + NatToString(base + j) + "]"
  {
    if |ps| > 0 {
      assert forall i :: 0 < i < |parsed| ==> parsed[i] == parsed[1..][i - 1] && ps[i] == ps[1..][i - 1];
      var fs := Fields(parsed);
      if parsed[0].PField? {
        assert fs == [parsed[0]] + Fields(parsed[1..]);
        assert forall j :: 0 <= j < |Fields(parsed[1..])| ==> Fields(parsed[1..])[j] == fs[j + 1];
        ResolvedFrom(parsed[1..], args, ps[1..], base + 1);
        assert fs[0].index == Some(base);
        assert PositionalPart(args, parsed[0], ps[0]);
        ResolvedFromField(args, ps, fs, base);
      } else {
        assert fs == Fields(parsed[1..]);
        ResolvedFrom(parsed[1..], args, ps[1..], base);
        assert PositionalPart(args, parsed[0], ps[0]);
        assert Interpolations(ps) == Interpolations(ps[1..]);
      }
    }
  }
}
