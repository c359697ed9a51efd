/** Reusable templates: the `Formatter` of pep/reuse.py.

  The interpolations of a reusable template hold names (strings) instead of
  values; `format(**kwargs)` looks each name up and renders the template as
  `f` would have rendered it with the looked-up values in place.
 */
module Reuse {
  import opened Wrappers
  import opened Templates
  import opened FString

  datatype Formatter = Formatter(template: Template)

  /** Every interpolation of `t` holds a name. */
  predicate NamesOnly(t: Template) {
    forall j :: 0 <= j < |t| && t[j].Interp? ==> t[j].interpolation.value.Str?
  }

  /** Every name in `t` is bound by `kwargs`. */
  predicate Bound(t: Template, kwargs: map<string, Value>) {
    forall j :: 0 <= j < |t| && t[j].Interp? && t[j].interpolation.value.Str? ==> t[j].interpolation.value.s in kwargs
  }

  /** The first interpolation value that is not a name, if any. */
  function FirstNonName(t: Template): (r: Option<Value>)
    ensures r.None? <==> NamesOnly(t)
    ensures r.Some? ==> exists k :: && 0 <= k < |t| && t[k].Interp?
                                    && t[k].interpolation.value == r.value && !r.value.Str?
                                    && forall j :: 0 <= j < k && t[j].Interp? ==> t[j].interpolation.value.Str?
  {
    if |t| == 0 then None
    else
      assert forall j :: 0 < j < |t| ==> t[j] == t[1..][j - 1];
      if t[0].Interp? && !t[0].interpolation.value.Str? then Some(t[0].interpolation.value)
      else
        var r := FirstNonName(t[1..]);
        if r.Some? then
          var k :| && 0 <= k < |t[1..]| && t[1..][k].Interp?
                   && t[1..][k].interpolation.value == r.value && !r.value.Str?
                   && forall j :: 0 <= j < k && t[1..][j].Interp? ==> t[1..][j].interpolation.value.Str?;
          assert t[k + 1] == t[1..][k];
          r
        else r
  }

  /** `Formatter(template)`, which rejects an interpolation that is not a name. */
  function NewFormatter(b: Builtins, t: Template): (r: Result<Formatter>)
    ensures r.Ok? <==> NamesOnly(t)
    ensures r.Ok? ==> r.value.template == t
    ensures r.Err? ==> r.error.kind == ValueError
    ensures r.Err? ==> exists k :: && 0 <= k < |t| && t[k].Interp? && !t[k].interpolation.value.Str?
                                   && r.error.message == "Non-string interpolation: " + b.str(t[k].interpolation.value)
                                   && forall j :: 0 <= j < k && t[j].Interp? ==> t[j].interpolation.value.Str?
  {
    match FirstNonName(t)
    case Some(v) => Err(Error(ValueError, "Non-string interpolation: " + b.str(v)))
    case None => Ok(Formatter(t))
  }

  /** What `format` does with one interpolation: look its name up, then
      convert and format the bound value.  An unbound name is a KeyError; a
      bound one renders as `f` renders the interpolation with its value in
      place. */
  function Lookup(b: Builtins, kwargs: map<string, Value>, i: Interpolation): (r: Result<string>)
    ensures !i.value.Str? ==> r == Err(Error(AssertionError, ""))
    ensures i.value.Str? && i.value.s !in kwargs ==> r == Err(Error(KeyError, i.value.s))
    ensures i.value.Str? && i.value.s in kwargs ==> r == RenderInterpolation(b, Bind([Interp(i)], kwargs)[0].interpolation)
  {
    match i.value
    case Str(name) =>
      if name in kwargs then RenderInterpolation(b, i.(value := kwargs[name]))
      else Err(Error(KeyError, name))
    case _ => Err(Error(AssertionError, ""))
  }

  /** `Lookup` as the piece function of `RenderWith`. */
  function Looker(b: Builtins, kwargs: map<string, Value>): Interpolation -> Result<string> {
    i => Lookup(b, kwargs, i)
  }

  /** `formatter.format(**kwargs)`. */
  function Format(b: Builtins, fm: Formatter, kwargs: map<string, Value>): (r: Result<string>)
    ensures r.Ok? ==> NamesOnly(fm.template) && Bound(fm.template, kwargs)
  {
    var r := RenderWith(fm.template, Looker(b, kwargs));
    assert r.Ok? ==> AllPiecesOk(fm.template, Looker(b, kwargs));
    r
  }

  /** The template with each name replaced by its bound value, where bound. */
  function Bind(t: Template, kwargs: map<string, Value>): (r: Template)
    ensures |r| == |t|
  {
    if |t| == 0 then []
    else
      var p := match t[0]
        case Interp(i) =>
          if i.value.Str? && i.value.s in kwargs then Interp(i.(value := kwargs[i.value.s])) else t[0]
        case Lit(_) => t[0];
      [p] + Bind(t[1..], kwargs)
  }

  /** Formatting with bound names is `f` of the template with the values in place. */
  lemma {:induction false} FormatIsF(b: Builtins, t: Template, kwargs: map<string, Value>)
    requires NamesOnly(t) && Bound(t, kwargs)
    ensures Format(b, Formatter(t), kwargs) == F(b, Bind(t, kwargs))
  {
    if |t| > 0 {
      assert forall j :: 0 < j < |t| ==> t[j] == t[1..][j - 1];
      FormatIsF(b, t[1..], kwargs);
      assert Bind(t, kwargs)[1..] == Bind(t[1..], kwargs);
    }
  }

  /** Keyword arguments that the template does not name change nothing. */
  lemma FormatIgnoresUnused(b: Builtins, fm: Formatter, kw1: map<string, Value>, kw2: map<string, Value>)
    requires forall j :: 0 <= j < |fm.template| && fm.template[j].Interp? && fm.template[j].interpolation.value.Str? ==>
      var name := fm.template[j].interpolation.value.s;
      (name in kw1 <==> name in kw2) && (name in kw1 ==> kw1[name] == kw2[name])
    ensures Format(b, fm, kw1) == Format(b, fm, kw2)
  {
    RenderWithAgree(fm.template, Looker(b, kw1), Looker(b, kw2));
  }

  /** An unbound name is a KeyError when it is the first interpolation to fail. */
  lemma MissingName(b: Builtins, fm: Formatter, kwargs: map<string, Value>, k: nat)
    requires k < |fm.template| && fm.template[k].Interp?
    requires fm.template[k].interpolation.value.Str? && fm.template[k].interpolation.value.s !in kwargs
    requires forall j :: 0 <= j < k && fm.template[j].Interp? ==> Lookup(b, kwargs, fm.template[j].interpolation).Ok?
    ensures Format(b, fm, kwargs) == Err(Error(KeyError, fm.template[k].interpolation.value.s))
  {
    var t := fm.template;
    var r := Format(b, fm, kwargs);
    var k' :| FirstFailureAt(t, Looker(b, kwargs), k', r.error);
    assert !(k' < k);
    assert !(k < k');
  }
}
