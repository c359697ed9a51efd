/** Lazy evaluation through templates: `format_some` (pep/lazy.py).

  Every interpolation of the template must hold a callable.  Only the
  callables whose format spec equals the selector are invoked; every other
  interpolation renders as the `ignored` placeholder.  A Python callable is
  modelled as an identifier, and invoking it as the `call` parameter; the
  second component of the result is the trace of identifiers invoked, in
  order, which is what makes laziness a checkable property.
 */
module Lazy {
  import opened Wrappers
  import opened Templates
  import opened FString

  /** The default placeholder for interpolations that are not selected. */
  const DefaultIgnored: string := "***"

  /** The identifiers of the callables whose spec equals `selector`, in order. */
  function Selected(t: Template, selector: string): seq<nat> {
    if |t| == 0 then []
    else
      (if t[0].Interp? && t[0].interpolation.value.Callable? && t[0].interpolation.formatSpec == selector
       then [t[0].interpolation.value.id] else [])
      + Selected(t[1..], selector)
  }

  predicate AllCallable(t: Template) {
    forall j :: 0 <= j < |t| && t[j].Interp? ==> t[j].interpolation.value.Callable?
  }

  /** The ValueError `format_some` raises on the non-callable value `v`. */
  function NonCallableError(b: Builtins, v: Value): Error {
    Error(ValueError, "Non-callable interpolation: " + b.str(v))
  }

  /** One pass of the loop: the value appended to `parts` and the calls made. */
  function Step(b: Builtins, call: nat -> Value, selector: string, ignored: string, p: Part)
    : (r: Result<(Value, seq<nat>)>)
    ensures p.Lit? ==> r == Ok((Str(p.text), []))
    ensures r.Err? <==> p.Interp? && !p.interpolation.value.Callable?
    ensures r.Err? ==> r.error.kind == ValueError
    ensures p.Interp? && r.Err? ==> r.error == NonCallableError(b, p.interpolation.value)
    ensures r.Ok? && p.Interp? ==>
      if p.interpolation.formatSpec == selector then r.value.1 == [p.interpolation.value.id]
      else r.value == (Str(ignored), [])
    ensures r.Ok? && p.Interp? && p.interpolation.formatSpec == selector ==>
      r.value.0 == Convert(b, call(p.interpolation.value.id), p.interpolation.conversion)
  {
    match p
    case Lit(s) => Ok((Str(s), []))
    case Interp(i) =>
      if !i.value.Callable? then
        Err(NonCallableError(b, i.value))
      else if i.formatSpec == selector then
        Ok((Convert(b, call(i.value.id), i.conversion), [i.value.id]))
      else
        Ok((Str(ignored), []))
  }

  /** The loop stops at part `k` with error `e` after the calls `trace`:
      `t[k]` is the first interpolation that is not callable, `e` is the
      ValueError naming its value, and `trace` holds exactly the selected
      callables before it. */
  predicate StopsAt(b: Builtins, selector: string, t: Template, k: int, e: Error, trace: seq<nat>) {
    && 0 <= k < |t|
    && t[k].Interp? && !t[k].interpolation.value.Callable?
    && AllCallable(t[..k])
    && e == NonCallableError(b, t[k].interpolation.value)
    && trace == Selected(t[..k], selector)
  }

  /** The loop over the parts: the collected values, or the ValueError of the
      first non-callable; the trace holds every call made before stopping. */
  function Collect(b: Builtins, call: nat -> Value, selector: string, ignored: string, t: Template)
    : (r: (Result<seq<Value>>, seq<nat>))
    ensures r.0.Ok? ==> |r.0.value| == |t|
    ensures r.0.Ok? ==> forall j :: 0 <= j < |t| ==>
      Step(b, call, selector, ignored, t[j]).Ok? && r.0.value[j] == Step(b, call, selector, ignored, t[j]).value.0
    ensures r.0.Err? <==> !AllCallable(t)
    ensures r.0.Err? ==> r.0.error.kind == ValueError
    ensures AllCallable(t) ==> r.1 == Selected(t, selector)
    ensures r.0.Err? ==> exists k :: StopsAt(b, selector, t, k, r.0.error, r.1)
  {
    if |t| == 0 then (Ok([]), [])
    else
      assert forall j :: 0 < j < |t| ==> t[j] == t[1..][j - 1];
      match Step(b, call, selector, ignored, t[0])
      case Err(e) =>
        assert StopsAt(b, selector, t, 0, e, []) by {
          assert t[..0] == [];
        }
        (Err(e), [])
      case Ok((v, calls)) =>
        var (rest, trace) := Collect(b, call, selector, ignored, t[1..]);
        match rest
        case Err(e) =>
          var k :| StopsAt(b, selector, t[1..], k, e, trace);
          StopsAtShift(b, call, selector, ignored, t, k, e, trace);
          (Err(e), calls + trace)
        case Ok(vs) => (Ok([v] + vs), calls + trace)
  }

  /** A stop at `k` in the tail is a stop at `k + 1` in the whole template,
      once the first part's calls are put in front of the trace. */
  lemma StopsAtShift(b: Builtins, call: nat -> Value, selector: string, ignored: string,
                     t: Template, k: int, e: Error, trace: seq<nat>)
    requires |t| > 0 && Step(b, call, selector, ignored, t[0]).Ok?
    requires StopsAt(b, selector, t[1..], k, e, trace)
    ensures StopsAt(b, selector, t, k + 1, e, Step(b, call, selector, ignored, t[0]).value.1 + trace)
  {
    var pre := t[..k + 1];
    assert pre[0] == t[0] && pre[1..] == t[1..][..k];
    assert t[k + 1] == t[1..][k];
    assert AllCallable(pre) by {
      forall j | 0 <= j < |pre| && pre[j].Interp? ensures pre[j].interpolation.value.Callable? {
        if j > 0 {
          assert pre[j] == t[1..][..k][j - 1];
        }
      }
    }
    assert Selected(pre, selector) == Step(b, call, selector, ignored, t[0]).value.1 + Selected(pre[1..], selector);
  }

  /** What `"".join` raises on a part that is not a string.  CPython's
      message also names the item's index and type; this one does not. */
  const JoinError: Error := Error(TypeError, "sequence item: expected str instance")

  /** `"".join(parts)`, which raises TypeError on a part that is not a string. */
  function Join(vs: seq<Value>): (r: Result<string>)
    ensures r.Ok? <==> forall j :: 0 <= j < |vs| ==> vs[j].Str?
    ensures r.Err? ==> r == Err(JoinError)
  {
    if |vs| == 0 then Ok("")
    else if !vs[0].Str? then Err(JoinError)
    else
      var rest := Join(vs[1..]);
      assert forall j :: 0 < j < |vs| ==> vs[j] == vs[1..][j - 1];
      if rest.Err? then rest else Ok(vs[0].s + rest.value)
  }

  /** Joining a concatenation is joining each half and concatenating the
      texts; the first part that is not a string decides the error. */
  lemma {:induction false} JoinAppend(a: seq<Value>, c: seq<Value>)
    ensures Join(a + c) == Then(Join(a), Join(c))
  {
    if |a| == 0 {
      assert a + c == c;
      ThenUnit(Join(c));
    } else {
      assert (a + c)[0] == a[0] && (a + c)[1..] == a[1..] + c;
      JoinAppend(a[1..], c);
      if a[0].Str? {
        assert Join(a) == Then(Ok(a[0].s), Join(a[1..]));
        assert Join(a + c) == Then(Ok(a[0].s), Join(a[1..] + c));
        ThenAssociative(Ok(a[0].s), Join(a[1..]), Join(c));
      }
    }
  }

  /** A single string joins to itself. */
  lemma JoinOne(s: string)
    ensures Join([Str(s)]) == Ok(s)
  {
    assert [Str(s)][1..] == [];
    assert s + "" == s;
  }

  /** The text `format_some` gives one interpolation of an all-callable
      template: the converted result of a selected callable, which `join`
      needs to be a string, and the placeholder otherwise. */
  function LazyPiece(b: Builtins, call: nat -> Value, selector: string, ignored: string): Interpolation -> Result<string> {
    (i: Interpolation) =>
      if i.value.Callable? && i.formatSpec == selector then
        match Convert(b, call(i.value.id), i.conversion)
        case Str(s) => Ok(s)
        case _ => Err(JoinError)
      else Ok(ignored)
  }

  /** A selected interpolation whose converted result is a string. */
  predicate SelectedIsString(b: Builtins, call: nat -> Value, selector: string, i: Interpolation) {
    i.value.Callable? && i.formatSpec == selector ==> Convert(b, call(i.value.id), i.conversion).Str?
  }

  /** `format_some(selector, template, ignored)` with the calls it makes. */
  function FormatSome(b: Builtins, call: nat -> Value, selector: string, t: Template, ignored: string)
    : (r: (Result<string>, seq<nat>))
    ensures r.0.Err? && r.0.error.kind == ValueError <==> !AllCallable(t)
    ensures AllCallable(t) ==> r.1 == Selected(t, selector)
    ensures AllCallable(t) ==> r.0 == RenderWith(t, LazyPiece(b, call, selector, ignored))
    ensures AllCallable(t) ==>
      (r.0.Ok? <==> forall j :: 0 <= j < |t| && t[j].Interp? ==> SelectedIsString(b, call, selector, t[j].interpolation))
    ensures AllCallable(t) && r.0.Err? ==> r.0.error == JoinError
    ensures !AllCallable(t) ==> r.0.Err? && exists k :: StopsAt(b, selector, t, k, r.0.error, r.1)
  {
    var (vs, trace) := Collect(b, call, selector, ignored, t);
    LazyRendering(b, call, selector, ignored, t);
    match vs
    case Err(e) => (Err(e), trace)
    case Ok(values) => (Join(values), trace)
  }

  /** What the lazy walk gives: success exactly when every selected result
      is a string, and otherwise the error of `join`. */
  lemma LazyRendering(b: Builtins, call: nat -> Value, selector: string, ignored: string, t: Template)
    ensures AllCallable(t) ==>
      (match Collect(b, call, selector, ignored, t).0 case Ok(vs) => Join(vs) case Err(e) => Err(e))
      == RenderWith(t, LazyPiece(b, call, selector, ignored))
    ensures var r := RenderWith(t, LazyPiece(b, call, selector, ignored));
      && (r.Ok? <==> forall j :: 0 <= j < |t| && t[j].Interp? ==> SelectedIsString(b, call, selector, t[j].interpolation))
      && (r.Err? ==> r.error == JoinError)
  {
    var piece := LazyPiece(b, call, selector, ignored);
    if AllCallable(t) {
      CollectJoin(b, call, selector, ignored, t);
    }
    assert forall j :: 0 <= j < |t| && t[j].Interp? ==>
      (piece(t[j].interpolation).Ok? <==> SelectedIsString(b, call, selector, t[j].interpolation));
    var r := RenderWith(t, piece);
    if r.Err? {
      var k :| FirstFailureAt(t, piece, k, r.error);
    }
  }

  /** Collecting then joining is the walk of `f` with `LazyPiece` in place of
      `format`: literals verbatim, each interpolation its lazy text. */
  lemma {:induction false} CollectJoin(b: Builtins, call: nat -> Value, selector: string, ignored: string, t: Template)
    requires AllCallable(t)
    ensures (match Collect(b, call, selector, ignored, t).0 case Ok(vs) => Join(vs) case Err(e) => Err(e))
         == RenderWith(t, LazyPiece(b, call, selector, ignored))
  {
    if |t| > 0 {
      var piece := LazyPiece(b, call, selector, ignored);
      assert forall j :: 0 < j < |t| ==> t[j] == t[1..][j - 1];
      assert AllCallable(t[1..]);
      CollectJoin(b, call, selector, ignored, t[1..]);
      var v := Step(b, call, selector, ignored, t[0]).value.0;
      var rest := Collect(b, call, selector, ignored, t[1..]).0.value;
      assert Collect(b, call, selector, ignored, t).0 == Ok([v] + rest);
      assert ([v] + rest)[1..] == rest;
      var head := match t[0] case Lit(s) => Ok(s) case Interp(i) => piece(i);
      assert head == (if v.Str? then Ok(v.s) else Err(JoinError));
    }
  }

  /** Laziness: the outcome depends on `call` only at the selected callables. */
  lemma {:induction false} CollectLazy(b: Builtins, c1: nat -> Value, c2: nat -> Value, selector: string, ignored: string, t: Template)
    requires forall id :: id in Selected(t, selector) ==> c1(id) == c2(id)
    ensures Collect(b, c1, selector, ignored, t) == Collect(b, c2, selector, ignored, t)
  {
    if |t| > 0 {
      var head := if t[0].Interp? && t[0].interpolation.value.Callable? && t[0].interpolation.formatSpec == selector
                  then [t[0].interpolation.value.id] else [];
      assert Selected(t, selector) == head + Selected(t[1..], selector);
      assert Step(b, c1, selector, ignored, t[0]) == Step(b, c2, selector, ignored, t[0]);
      CollectLazy(b, c1, c2, selector, ignored, t[1..]);
    }
  }

  lemma FormatSomeLazy(b: Builtins, c1: nat -> Value, c2: nat -> Value, selector: string, t: Template, ignored: string)
    requires forall id :: id in Selected(t, selector) ==> c1(id) == c2(id)
    ensures FormatSome(b, c1, selector, t, ignored) == FormatSome(b, c2, selector, t, ignored)
  {
    CollectLazy(b, c1, c2, selector, ignored, t);
  }

  /** The template with every interpolation replaced by `ignored`. */
  function Masked(t: Template, ignored: string): string {
    if |t| == 0 then ""
    else (match t[0] case Lit(s) => s case Interp(_) => ignored) + Masked(t[1..], ignored)
  }

  /** With no interpolation selected nothing is invoked, and every
      interpolation reads as the placeholder. */
  lemma {:induction false} NothingSelected(b: Builtins, call: nat -> Value, selector: string, t: Template, ignored: string)
    requires AllCallable(t)
    requires forall j :: 0 <= j < |t| && t[j].Interp? ==> t[j].interpolation.formatSpec != selector
    ensures FormatSome(b, call, selector, t, ignored) == (Ok(Masked(t, ignored)), [])
  {
    if |t| > 0 {
      assert forall j :: 0 < j < |t| ==> t[j] == t[1..][j - 1];
      NothingSelected(b, call, selector, t[1..], ignored);
      var (vs, _) := Collect(b, call, selector, ignored, t[1..]);
      var v := match t[0] case Lit(s) => s case Interp(_) => ignored;
      assert Collect(b, call, selector, ignored, t).0 == Ok([Str(v)] + vs.value);
      assert ([Str(v)] + vs.value)[1..] == vs.value;
    }
  }

  /** The template of `t"{(lambda: 'roquefort'):blue} {(lambda: 'limburger'):stinky}"`. */
  function CheeseTemplate(): Template {
    [Lit(""), Interp(Interpolation(Callable(0), "(lambda: 'roquefort')", None, "blue")),
     Lit(" "), Interp(Interpolation(Callable(1), "(lambda: 'limburger')", None, "stinky")),
     Lit("")]
  }

  /** Selecting "blue" invokes the first callable only. */
  lemma CheeseBlue(b: Builtins, call: nat -> Value)
    requires call(0) == Str("roquefort")
    ensures FormatSome(b, call, "blue", CheeseTemplate(), DefaultIgnored) == (Ok("roquefort ***"), [0])
  {
    var t := CheeseTemplate();
    var vs := [Str(""), Str("roquefort"), Str(" "), Str("***"), Str("")];
    assert Step(b, call, "blue", DefaultIgnored, t[1]) == Ok((Str("roquefort"), [0]));
    assert Step(b, call, "blue", DefaultIgnored, t[3]) == Ok((Str("***"), []));
    CheeseCollect(b, call, "blue", vs);
    assert [0] + [] == [0];
    JoinExample("", "roquefort", " ", "***", "");
    assert "" + "roquefort" + " " + "***" + "" == "roquefort ***";
  }

  /** Selecting "stinky" invokes the second callable only. */
  lemma CheeseStinky(b: Builtins, call: nat -> Value)
    requires call(1) == Str("limburger")
    ensures FormatSome(b, call, "stinky", CheeseTemplate(), DefaultIgnored) == (Ok("*** limburger"), [1])
  {
    var t := CheeseTemplate();
    var vs := [Str(""), Str("***"), Str(" "), Str("limburger"), Str("")];
    assert Step(b, call, "stinky", DefaultIgnored, t[1]) == Ok((Str("***"), []));
    assert Step(b, call, "stinky", DefaultIgnored, t[3]) == Ok((Str("limburger"), [1]));
    CheeseCollect(b, call, "stinky", vs);
    assert [] + [1] == [1];
    JoinExample("", "***", " ", "limburger", "");
    assert "" + "***" + " " + "limburger" + "" == "*** limburger";
  }

  /** `Collect` over the cheese template: the given values, and the callables
      the selector picks. */
  lemma CheeseCollect(b: Builtins, call: nat -> Value, selector: string, vs: seq<Value>)
    requires |vs| == 5
    requires forall j :: 0 <= j < 5 ==> Step(b, call, selector, DefaultIgnored, CheeseTemplate()[j]) == Ok((vs[j], Step(b, call, selector, DefaultIgnored, CheeseTemplate()[j]).value.1))
    ensures AllCallable(CheeseTemplate())
    ensures Collect(b, call, selector, DefaultIgnored, CheeseTemplate()).0 == Ok(vs)
    ensures Selected(CheeseTemplate(), selector) ==
      (if selector == "blue" then [0] else []) + (if selector == "stinky" then [1] else [])
  {
    var t := CheeseTemplate();
    assert AllCallable(t);
    var r := Collect(b, call, selector, DefaultIgnored, t).0;
    assert r.value == vs;
    var blue := if selector == "blue" then [0] else [];
    var stinky := if selector == "stinky" then [1] else [];
    assert t[4..][1..] == [];
    assert Selected(t[4..], selector) == [];
    assert t[3..][1..] == t[4..];
    assert Selected(t[3..], selector) == stinky + [];
    assert t[2..][1..] == t[3..];
    assert Selected(t[2..], selector) == [] + (stinky + []);
    assert t[1..][1..] == t[2..];
    assert Selected(t[1..], selector) == blue + ([] + (stinky + []));
    assert Selected(t, selector) == [] + (blue + ([] + (stinky + [])));
  }

  /** `format_some("blue", t"{f:blue}{42}")` calls `f`, then raises the
      ValueError naming 42. */
  lemma NonCallableAfterCall(b: Builtins, call: nat -> Value, ignored: string)
    ensures var t := [Lit(""), Interp(Interpolation(Callable(0), "f", None, "blue")),
                      Lit(""), Interp(Interpolation(Other(42), "42", None, "")), Lit("")];
            FormatSome(b, call, "blue", t, ignored) == (Err(NonCallableError(b, Other(42))), [0])
  {
    var t := [Lit(""), Interp(Interpolation(Callable(0), "f", None, "blue")),
              Lit(""), Interp(Interpolation(Other(42), "42", None, "")), Lit("")];
    assert !AllCallable(t) by {
      assert t[3].Interp? && !t[3].interpolation.value.Callable?;
    }
    var r := FormatSome(b, call, "blue", t, ignored);
    var k :| StopsAt(b, "blue", t, k, r.0.error, r.1);
    assert t[0].Lit? && t[1].interpolation.value.Callable? && t[2].Lit? && t[4].Lit?;
    assert k == 3;
    var pre := t[..3];
    assert pre[1..][1..][1..] == [];
    assert Selected(pre[1..][1..], "blue") == [];
    assert Selected(pre[1..], "blue") == [0];
    assert Selected(pre, "blue") == [0];
  }

  lemma JoinExample(s0: string, s1: string, s2: string, s3: string, s4: string)
    ensures Join([Str(s0), Str(s1), Str(s2), Str(s3), Str(s4)]) == Ok(s0 + s1 + s2 + s3 + s4)
  {
    var vs := [Str(s0), Str(s1), Str(s2), Str(s3), Str(s4)];
    assert vs[4..][1..] == [];
    assert Join(vs[4..]) == Ok(s4 + "");
    assert vs[3..][1..] == vs[4..];
    assert Join(vs[3..]) == Ok(s3 + (s4 + ""));
    assert vs[2..][1..] == vs[3..];
    assert Join(vs[2..]) == Ok(s2 + (s3 + (s4 + "")));
    assert vs[1..][1..] == vs[2..];
    assert Join(vs[1..]) == Ok(s1 + (s2 + (s3 + (s4 + ""))));
    assert Join(vs) == Ok(s0 + (s1 + (s2 + (s3 + (s4 + "")))));
    assert s4 + "" == s4;
    assert s0 + (s1 + (s2 + (s3 + s4))) == s0 + s1 + s2 + s3 + s4;
  }
}
