/** f-string rendering of a template: `convert` and `f` (pep/fstring.py).

  Python's `format`, `repr`, `ascii` and `str` are not modelled; they are
  the fields of a `Builtins` value every renderer takes, so each property
  below holds whatever those functions do.
 */
module FString {
  import opened Wrappers
  import opened Templates

  /** The Python built-ins the renderers call. `format` may fail (a bad spec). */
  datatype Builtins = Builtins(
    format: (Value, string) -> Result<string>,
    repr: Value -> string,
    ascii: Value -> string,
    str: Value -> string)

  /** `convert(value, conv)`: "a", "r" and "s" turn the value into the string
      of `ascii`, `repr` or `str`; no tag, or any other tag, leaves it alone. */
  function Convert(b: Builtins, v: Value, conv: Option<string>): (r: Value)
    ensures conv == Some("a") ==> r == Str(b.ascii(v))
    ensures conv == Some("r") ==> r == Str(b.repr(v))
    ensures conv == Some("s") ==> r == Str(b.str(v))
    ensures !ValidConversion(conv) || conv == None ==> r == v
  {
    if conv == Some("a") then Str(b.ascii(v))
    else if conv == Some("r") then Str(b.repr(v))
    else if conv == Some("s") then Str(b.str(v))
    else v
  }

  /** `convert` yields a string exactly when the value already is one or the
      conversion is one of "a", "r" and "s". */
  lemma ConvertStr(b: Builtins, v: Value, conv: Option<string>)
    ensures Convert(b, v, conv).Str? <==> v.Str? || (ValidConversion(conv) && conv.Some?)
  {
  }

  /** `format(convert(value, conv), format_spec)` for one interpolation. */
  function RenderInterpolation(b: Builtins, i: Interpolation): Result<string> {
    b.format(Convert(b, i.value, i.conversion), i.formatSpec)
  }

  /** `RenderInterpolation` as the piece function of `RenderWith`. */
  function Piece(b: Builtins): Interpolation -> Result<string> {
    i => RenderInterpolation(b, i)
  }

  /** Part `k` is the first interpolation whose piece fails, and fails with `e`. */
  predicate FirstFailureAt(t: Template, piece: Interpolation -> Result<string>, k: int, e: Error) {
    && 0 <= k < |t|
    && t[k].Interp?
    && piece(t[k].interpolation) == Err(e)
    && forall j :: 0 <= j < k && t[j].Interp? ==> piece(t[j].interpolation).Ok?
  }

  predicate AllPiecesOk(t: Template, piece: Interpolation -> Result<string>) {
    forall j :: 0 <= j < |t| && t[j].Interp? ==> piece(t[j].interpolation).Ok?
  }

  /** The shared walk of the renderers: literals verbatim, each interpolation
      through `piece`, in order; the first failing piece aborts with its error. */
  function RenderWith(t: Template, piece: Interpolation -> Result<string>): (r: Result<string>)
    ensures r.Ok? <==> AllPiecesOk(t, piece)
    ensures r.Err? ==> exists k :: FirstFailureAt(t, piece, k, r.error)
  {
    if |t| == 0 then Ok("")
    else
      var head := match t[0] case Lit(s) => Ok(s) case Interp(i) => piece(i);
      var rest := RenderWith(t[1..], piece);
      assert forall j :: 0 < j < |t| ==> t[j] == t[1..][j - 1];
      if head.Err? then
        assert FirstFailureAt(t, piece, 0, head.error);
        Err(head.error)
      else if rest.Err? then
        var k :| FirstFailureAt(t[1..], piece, k, rest.error);
        assert FirstFailureAt(t, piece, k + 1, rest.error);
        Err(rest.error)
      else
        Ok(head.value + rest.value)
  }

  /** `x` then `y`: the concatenation when both succeed, else the first error. */
  function Then(x: Result<string>, y: Result<string>): Result<string> {
    if x.Err? then x else if y.Err? then y else Ok(x.value + y.value)
  }

  lemma ThenAssociative(x: Result<string>, y: Result<string>, z: Result<string>)
    ensures Then(x, Then(y, z)) == Then(Then(x, y), z)
  {
    if x.Ok? && y.Ok? && z.Ok? {
      assert x.value + (y.value + z.value) == (x.value + y.value) + z.value;
    }
  }

  lemma ThenUnit(x: Result<string>)
    ensures Then(Ok(""), x) == x && Then(x, Ok("")) == x
  {
    if x.Ok? {
      assert "" + x.value == x.value && x.value + "" == x.value;
    }
  }

  /** A single part renders as its piece. */
  lemma RenderWithOne(p: Part, piece: Interpolation -> Result<string>)
    ensures RenderWith([p], piece) == match p case Lit(s) => Ok(s) case Interp(i) => piece(i)
  {
    assert [p][1..] == [];
    ThenUnit(match p case Lit(s) => Ok(s) case Interp(i) => piece(i));
  }

  lemma {:induction false} RenderWithAppend(a: Template, b: Template, piece: Interpolation -> Result<string>)
    ensures RenderWith(a + b, piece) == Then(RenderWith(a, piece), RenderWith(b, piece))
  {
    if |a| == 0 {
      assert a + b == b;
      ThenUnit(RenderWith(b, piece));
    } else {
      assert (a + b)[0] == a[0] && (a + b)[1..] == a[1..] + b;
      RenderWithAppend(a[1..], b, piece);
      var head := match a[0] case Lit(s) => Ok(s) case Interp(i) => piece(i);
      assert RenderWith(a, piece) == Then(head, RenderWith(a[1..], piece));
      assert RenderWith(a + b, piece) == Then(head, RenderWith(a[1..] + b, piece));
      ThenAssociative(head, RenderWith(a[1..], piece), RenderWith(b, piece));
    }
  }

  /** Two piece functions that agree on the template's interpolations render it alike. */
  lemma {:induction false} RenderWithAgree(t: Template, p1: Interpolation -> Result<string>, p2: Interpolation -> Result<string>)
    requires forall j :: 0 <= j < |t| && t[j].Interp? ==> p1(t[j].interpolation) == p2(t[j].interpolation)
    ensures RenderWith(t, p1) == RenderWith(t, p2)
  {
    if |t| > 0 {
      assert forall j :: 0 < j < |t| ==> t[j] == t[1..][j - 1];
      RenderWithAgree(t[1..], p1, p2);
    }
  }

  /** Empty literals contribute nothing to any rendering. */
  lemma {:induction false} RenderWithDropEmpty(t: Template, piece: Interpolation -> Result<string>)
    ensures RenderWith(DropEmpty(t), piece) == RenderWith(t, piece)
  {
    if |t| > 0 {
      RenderWithDropEmpty(t[1..], piece);
      var head := if t[0] == Lit("") then [] else [t[0]];
      RenderWithAppend(head, DropEmpty(t[1..]), piece);
      if t[0] != Lit("") {
        assert RenderWith([t[0]], piece) == Then(
          match t[0] case Lit(s) => Ok(s) case Interp(i) => piece(i), Ok(""));
      }
    }
  }

  /** The concatenated texts of the literals of a template. */
  function LiteralText(t: Template): string {
    if |t| == 0 then ""
    else (if t[0].Lit? then t[0].text else "") + LiteralText(t[1..])
  }

  /** A template without interpolations renders to its literals, whatever the pieces. */
  lemma {:induction false} RenderWithLiterals(t: Template, piece: Interpolation -> Result<string>)
    requires forall j :: 0 <= j < |t| ==> t[j].Lit?
    ensures RenderWith(t, piece) == Ok(LiteralText(t))
  {
    if |t| > 0 {
      RenderWithLiterals(t[1..], piece);
    }
  }

  /** `f(template)`: the f-string the template came from. */
  function F(b: Builtins, t: Template): (r: Result<string>)
    ensures r.Ok? <==> forall j :: 0 <= j < |t| && t[j].Interp? ==> RenderInterpolation(b, t[j].interpolation).Ok?
    ensures r.Err? ==> exists k :: && 0 <= k < |t| && t[k].Interp?
                                   && RenderInterpolation(b, t[k].interpolation) == Err(r.error)
                                   && forall j :: 0 <= j < k && t[j].Interp? ==> RenderInterpolation(b, t[j].interpolation).Ok?
  {
    var piece := Piece(b);
    var r := RenderWith(t, piece);
    assert r.Err? ==> exists k :: FirstFailureAt(t, piece, k, r.error);
    r
  }

  /** `f` of a template without interpolations is its literals joined; `f(t"")` is "". */
  lemma FLiterals(b: Builtins, t: Template)
    requires forall j :: 0 <= j < |t| ==> t[j].Lit?
    ensures F(b, t) == Ok(LiteralText(t))
  {
    RenderWithLiterals(t, Piece(b));
  }

  /** Rendering `t()` renders its arguments one to one: the inserted empty
      literals change nothing. */
  lemma FOfT(b: Builtins, args: seq<RawArg>)
    requires T(args).Ok?
    ensures F(b, T(args).value) == F(b, Plain(args))
  {
    var piece := Piece(b);
    RenderWithDropEmpty(T(args).value, piece);
    RenderWithDropEmpty(Plain(args), piece);
  }

  /** `f(template + s)` is `f(template) + s`. */
  lemma FAddStr(b: Builtins, t: Template, s: string)
    requires EndsWithLit(t)
    ensures F(b, AddStr(t, s)) == Then(F(b, t), Ok(s))
  {
    var piece := Piece(b);
    var n := |t|;
    var init := t[..n - 1];
    var x := t[n - 1].text;
    assert t == init + [Lit(x)];
    assert AddStr(t, s) == init + [Lit(x + s)];
    RenderWithAppend(init, [Lit(x)], piece);
    RenderWithAppend(init, [Lit(x + s)], piece);
    RenderWithOne(Lit(x), piece);
    RenderWithOne(Lit(x + s), piece);
    ThenAssociative(RenderWith(init, piece), Ok(x), Ok(s));
  }

  /** `f(s + template)` is `s + f(template)`. */
  lemma FRAddStr(b: Builtins, s: string, t: Template)
    requires StartsWithLit(t)
    ensures F(b, RAddStr(s, t)) == Then(Ok(s), F(b, t))
  {
    var piece := Piece(b);
    var y := t[0].text;
    var rest := t[1..];
    assert t == [Lit(y)] + rest;
    assert RAddStr(s, t) == [Lit(s + y)] + rest;
    RenderWithAppend([Lit(y)], rest, piece);
    RenderWithAppend([Lit(s + y)], rest, piece);
    RenderWithOne(Lit(y), piece);
    RenderWithOne(Lit(s + y), piece);
    ThenAssociative(Ok(s), Ok(y), RenderWith(rest, piece));
  }

  /** `f(a + b)` is `f(a) + f(b)`: merging the seam literals renders the same text. */
  lemma FAddTemplate(b: Builtins, x: Template, y: Template)
    requires EndsWithLit(x) && StartsWithLit(y)
    ensures F(b, AddTemplate(x, y)) == Then(F(b, x), F(b, y))
  {
    var piece := Piece(b);
    var n := |x|;
    var init := x[..n - 1];
    var rest := y[1..];
    var u := x[n - 1].text;
    var v := y[0].text;
    assert AddTemplate(x, y) == init + ([Lit(u + v)] + rest);
    assert x == init + [Lit(u)];
    assert y == [Lit(v)] + rest;
    var ri, rr := RenderWith(init, piece), RenderWith(rest, piece);
    RenderWithAppend(init, [Lit(u + v)] + rest, piece);
    RenderWithAppend([Lit(u + v)], rest, piece);
    RenderWithAppend(init, [Lit(u)], piece);
    RenderWithAppend([Lit(v)], rest, piece);
    RenderWithOne(Lit(u + v), piece);
    RenderWithOne(Lit(u), piece);
    RenderWithOne(Lit(v), piece);
    // ri (u v) rr == (ri u) (v rr)
    ThenAssociative(Ok(u), Ok(v), rr);
    ThenAssociative(ri, Ok(u), Then(Ok(v), rr));
  }
}
