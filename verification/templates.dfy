/** Template strings: `Interpolation`, `Template`, the `t()` constructor and
  template concatenation (pep/__init__.py).

  A template is a sequence of parts, each a literal string or an
  interpolation.  The canonical form alternates strictly: odd length, literals
  at the even positions (first and last included), interpolations at the odd
  ones.  Interpolation values are Python objects; the model closes them into
  the few kinds the consumers in this repository tell apart.
 */
module Templates {
  import opened Wrappers
  import opened OrderedDict
  import opened Markup

  /** The Python values an interpolation can carry, as the consumers classify them. */
  datatype Value =
    | Str(s: string)                  // str
    | AttrMap(attributes: Attributes) // a Mapping of attribute names to str | None
    | Elem(element: Element)          // a web.py Element
    | Tmpl(parts: seq<Part>)          // a nested Template
    | Callable(id: nat)               // a callable, identified by `id`
    | Other(id: nat)                  // any other object

  /** `conversion` is None or a tag; only "a", "r" and "s" are meaningful. */
  datatype Interpolation = Interpolation(
    value: Value,
    expression: string,
    conversion: Option<string>,
    formatSpec: string)

  datatype Part = Lit(text: string) | Interp(interpolation: Interpolation)

  type Template = seq<Part>

  /** The alternation invariant: odd length, literals exactly at even positions. */
  predicate WellFormed(t: Template) {
    |t| % 2 == 1 && forall i :: 0 <= i < |t| ==> (t[i].Lit? <==> i % 2 == 0)
  }

  predicate ValidConversion(c: Option<string>) {
    c == None || c == Some("a") || c == Some("r") || c == Some("s")
  }

  /** The interpolations of a template, in order. */
  function Interpolations(t: Template): (r: seq<Interpolation>)
    ensures |r| <= |t|
  {
    if |t| == 0 then []
    else (if t[0].Interp? then [t[0].interpolation] else []) + Interpolations(t[1..])
  }

  /** `p` holds of the interpolation of every interpolation part of `t`. */
  predicate EveryInterpolation(t: Template, p: Interpolation -> bool) {
    forall j :: 0 <= j < |t| && t[j].Interp? ==> p(t[j].interpolation)
  }

  /** `p` holds of every element of `xs`. */
  predicate Every(xs: seq<Interpolation>, p: Interpolation -> bool) {
    forall i :: 0 <= i < |xs| ==> p(xs[i])
  }

  /** A property holds of every interpolation part of `t` exactly when it
      holds of every element of `Interpolations(t)`. */
  lemma {:induction false} InterpolationsAll(t: Template, p: Interpolation -> bool)
    ensures EveryInterpolation(t, p) <==> Every(Interpolations(t), p)
  {
    if |t| > 0 {
      InterpolationsAll(t[1..], p);
      EveryInterpolationCons(t, p);
      var head := if t[0].Interp? then [t[0].interpolation] else [];
      assert Interpolations(t) == head + Interpolations(t[1..]);
      EveryConcat(head, Interpolations(t[1..]), p);
      assert Every(head, p) <==> (t[0].Interp? ==> p(t[0].interpolation)) by {
        if t[0].Interp? { assert head[0] == t[0].interpolation; }
      }
    } else {
      assert Interpolations(t) == [];
    }
  }

  lemma EveryInterpolationCons(t: Template, p: Interpolation -> bool)
    requires |t| > 0
    ensures EveryInterpolation(t, p) <==> (t[0].Interp? ==> p(t[0].interpolation)) && EveryInterpolation(t[1..], p)
  {
    var rest := t[1..];
    assert forall j :: 0 <= j < |rest| ==> rest[j] == t[j + 1];
    if !EveryInterpolation(t, p) {
      var j :| 0 <= j < |t| && t[j].Interp? && !p(t[j].interpolation);
      if j > 0 { assert rest[j - 1] == t[j]; }
    }
  }

  lemma EveryConcat(xs: seq<Interpolation>, ys: seq<Interpolation>, p: Interpolation -> bool)
    ensures Every(xs + ys, p) <==> Every(xs, p) && Every(ys, p)
  {
    var zs := xs + ys;
    assert forall i :: 0 <= i < |ys| ==> ys[i] == zs[i + |xs|];
    assert forall i :: 0 <= i < |xs| ==> xs[i] == zs[i];
    if !Every(zs, p) {
      var i :| 0 <= i < |zs| && !p(zs[i]);
      if i >= |xs| { assert zs[i] == ys[i - |xs|]; }
    }
  }

  lemma {:induction false} InterpolationsAppend(a: Template, b: Template)
    ensures Interpolations(a + b) == Interpolations(a) + Interpolations(b)
  {
    if |a| == 0 {
      assert a + b == b;
    } else {
      assert (a + b)[0] == a[0] && (a + b)[1..] == a[1..] + b;
      InterpolationsAppend(a[1..], b);
    }
  }

  // ---------------------------------------------------------------------------
  // t(): building a template from the older tagged-string arguments
  // ---------------------------------------------------------------------------

  /** An argument handed to `t()` by the older tagged-string implementation:
      a string, or an interpolation whose `conv`/`format_spec` may be mis-set. */
  datatype RawArg =
    | RawStr(text: string)
    | RawInterpolation(value: Value, expr: string, conv: Option<string>, formatSpec: Option<string>)

  /** The conv/format_spec repair of `t()`: a recognised tag is kept with its
      spec; any other text in `conv` is really the format spec. */
  function Repair(a: RawArg): (i: Interpolation)
    requires a.RawInterpolation?
    ensures i.value == a.value && i.expression == a.expr
    ensures ValidConversion(i.conversion)
    ensures ValidConversion(a.conv) ==> i.conversion == a.conv
    ensures a.conv.Some? && ValidConversion(a.conv) ==> i.formatSpec == a.formatSpec.GetOr("")
    ensures a.conv.Some? && !ValidConversion(a.conv) ==> i.conversion == None && i.formatSpec == a.conv.value
    ensures a.conv.None? ==> i.formatSpec == ""
  {
    match a.conv
    case None => Interpolation(a.value, a.expr, None, "")
    case Some(c) =>
      if c == "a" || c == "r" || c == "s" then
        Interpolation(a.value, a.expr, Some(c), a.formatSpec.GetOr(""))
      else
        Interpolation(a.value, a.expr, None, c)
  }

  /** How the older implementation reports `{x!conv:spec}`: correct when a
      conversion is present, but a lone spec lands in `conv`. */
  function OldReport(value: Value, expr: string, conv: Option<string>, spec: string): RawArg {
    if conv.Some? then RawInterpolation(value, expr, conv, if spec == "" then None else Some(spec))
    else if spec == "" then RawInterpolation(value, expr, None, None)
    else RawInterpolation(value, expr, Some(spec), None)
  }

  /** The repair recovers what was written, except for a lone spec that is
      itself "a", "r" or "s" (the limitation pep/__init__.py:108-110 accepts). */
  lemma RepairRecovers(value: Value, expr: string, conv: Option<string>, spec: string)
    requires ValidConversion(conv)
    ensures Repair(OldReport(value, expr, conv, spec)) == Interpolation(value, expr, conv, spec)
        <==> !(conv == None && ValidConversion(Some(spec)) && spec != "")
  {
  }

  /** No two string arguments are adjacent, as the tagged-string call guarantees. */
  predicate NoAdjacentStrings(args: seq<RawArg>) {
    forall i :: 0 <= i < |args| - 1 ==> !(args[i].RawStr? && args[i + 1].RawStr?)
  }

  /** The arguments taken one to one, strings as literals and interpolations repaired. */
  function Plain(args: seq<RawArg>): (r: Template)
    ensures |r| == |args|
  {
    if |args| == 0 then []
    else
      (match args[0]
       case RawStr(s) => [Lit(s)]
       case RawInterpolation(_, _, _, _) => [Interp(Repair(args[0]))]) + Plain(args[1..])
  }

  /** The parts with every empty literal removed. */
  function DropEmpty(t: Template): Template {
    if |t| == 0 then []
    else (if t[0] == Lit("") then [] else [t[0]]) + DropEmpty(t[1..])
  }

  /** The loop of `t()` from some argument on; `lastWasStr` is its flag.  An
      empty literal goes before every interpolation that does not follow a
      string, and after a trailing interpolation. */
  function Interleave(args: seq<RawArg>, lastWasStr: bool): (r: Template)
    ensures |r| >= |args|
    ensures r == [] <==> |args| == 0 && lastWasStr
  {
    if |args| == 0 then
      if lastWasStr then [] else [Lit("")]
    else
      match args[0]
      case RawStr(s) => [Lit(s)] + Interleave(args[1..], true)
      case RawInterpolation(_, _, _, _) =>
        var lead: Template := if lastWasStr then [] else [Lit("")];
        lead + [Interp(Repair(args[0]))] + Interleave(args[1..], false)
  }

  /** The interpolations come out as the repaired interpolation arguments, in order. */
  lemma {:induction false} InterleaveInterpolations(args: seq<RawArg>, lastWasStr: bool)
    ensures Interpolations(Interleave(args, lastWasStr)) == Interpolations(Plain(args))
  {
    if |args| > 0 {
      var rest := args[1..];
      var head := Plain([args[0]]);
      assert Plain(args) == head + Plain(rest);
      InterpolationsAppend(head, Plain(rest));
      match args[0]
      case RawStr(s) =>
        InterleaveInterpolations(rest, true);
        InterpolationsAppend(head, Interleave(rest, true));
      case RawInterpolation(_, _, _, _) =>
        InterleaveInterpolations(rest, false);
        var lead: Template := if lastWasStr then [] else [Lit("")];
        InterpolationsAppend(lead, head);
        InterpolationsAppend(lead + head, Interleave(rest, false));
        assert Interpolations(lead) == [] by {
          if !lastWasStr { assert lead[1..] == []; }
        }
    }
  }

  /** Arguments with no two strings side by side come out alternating. */
  lemma {:induction false} InterleaveAlternates(args: seq<RawArg>, lastWasStr: bool)
    requires NoAdjacentStrings(args)
    requires lastWasStr && |args| > 0 ==> args[0].RawInterpolation?
    ensures var r := Interleave(args, lastWasStr);
      && |r| % 2 == (if lastWasStr then 0 else 1)
      && forall i :: 0 <= i < |r| ==> (r[i].Lit? <==> (i % 2 == 0) != lastWasStr)
  {
    if |args| > 0 {
      var rest := args[1..];
      assert NoAdjacentStrings(rest) by {
        forall i | 0 <= i < |rest| - 1 ensures !(rest[i].RawStr? && rest[i + 1].RawStr?) {
          assert rest[i] == args[i + 1] && rest[i + 1] == args[i + 2];
        }
      }
      assert |args| > 1 ==> rest[0] == args[1];
      var r := Interleave(args, lastWasStr);
      match args[0]
      case RawStr(s) =>
        InterleaveAlternates(rest, true);
        Alternates(r, 1, Interleave(rest, true), lastWasStr, true);
      case RawInterpolation(_, _, _, _) =>
        InterleaveAlternates(rest, false);
        var lead: Template := if lastWasStr then [] else [Lit("")];
        Alternates(r, |lead| + 1, Interleave(rest, false), lastWasStr, false);
    }
  }

  /** A prefix of `k` parts that alternates from `flag`, followed by a tail
      that alternates from `tailFlag`, alternates throughout when the prefix
      length fits the flags. */
  lemma Alternates(r: Template, k: nat, tail: Template, flag: bool, tailFlag: bool)
    requires |r| == k + |tail| && r[k..] == tail
    requires forall i :: 0 <= i < k ==> (r[i].Lit? <==> (i % 2 == 0) != flag)
    requires |tail| % 2 == (if tailFlag then 0 else 1)
    requires forall i :: 0 <= i < |tail| ==> (tail[i].Lit? <==> (i % 2 == 0) != tailFlag)
    requires (k % 2 == 0) == (flag == tailFlag)
    ensures |r| % 2 == (if flag then 0 else 1)
    ensures forall i :: 0 <= i < |r| ==> (r[i].Lit? <==> (i % 2 == 0) != flag)
  {
    forall i | k <= i < |r| ensures r[i].Lit? <==> (i % 2 == 0) != flag {
      assert r[i] == tail[i - k];
      ParityShift(k, i - k);
    }
    ParityShift(k, |tail|);
  }

  /** The parity of a sum from the parities of its terms. */
  lemma ParityShift(k: nat, j: nat)
    ensures ((k + j) % 2 == 0) == ((j % 2 == 0) == (k % 2 == 0))
  {
  }

  /** The loop keeps every argument, in order, adding only empty literals. */
  lemma {:induction false} InterleaveKeepsArguments(args: seq<RawArg>, lastWasStr: bool)
    ensures DropEmpty(Interleave(args, lastWasStr)) == DropEmpty(Plain(args))
  {
    if |args| > 0 {
      var rest := args[1..];
      var head := Plain([args[0]]);
      assert Plain(args) == head + Plain(rest);
      DropEmptyAppend(head, Plain(rest));
      match args[0]
      case RawStr(s) =>
        InterleaveKeepsArguments(rest, true);
        DropEmptyAppend(head, Interleave(rest, true));
      case RawInterpolation(_, _, _, _) =>
        InterleaveKeepsArguments(rest, false);
        var lead: Template := if lastWasStr then [] else [Lit("")];
        DropEmptyAppend(lead, head);
        DropEmptyAppend(lead + head, Interleave(rest, false));
    }
  }

  lemma {:induction false} DropEmptyAppend(a: Template, b: Template)
    ensures DropEmpty(a + b) == DropEmpty(a) + DropEmpty(b)
  {
    if |a| == 0 {
      assert a + b == b;
    } else {
      assert (a + b)[0] == a[0] && (a + b)[1..] == a[1..] + b;
      DropEmptyAppend(a[1..], b);
    }
  }

  /** `t(*args)`: the template for the older tagged-string arguments.  An
      empty literal is inserted before a leading interpolation, between two
      interpolations and after a trailing one; nothing else is added, removed
      or reordered.  The closing assertion on the part count fails when the
      arguments, with two strings side by side, leave an even count. */
  function T(args: seq<RawArg>): (r: Result<Template>)
    ensures r.Ok? ==> DropEmpty(r.value) == DropEmpty(Plain(args))
    ensures NoAdjacentStrings(args) ==> r.Ok? && WellFormed(r.value)
    ensures r.Err? ==> r.error.kind == AssertionError
  {
    var parts := Interleave(args, false);
    InterleaveKeepsArguments(args, false);
    if NoAdjacentStrings(args) then InterleaveAlternates(args, false); Check(parts)
    else Check(parts)
  }

  /** The two closing assertions of `t()`. */
  function Check(parts: Template): Result<Template> {
    if |parts| >= 1 && |parts| % 2 == 1 then Ok(parts) else Err(Error(AssertionError, ""))
  }

  /** `t"{42}"` is `("", Interpolation(42, ...), "")`. */
  lemma TSingleInterpolation(v: Value, expr: string)
    ensures T([RawInterpolation(v, expr, None, None)])
         == Ok([Lit(""), Interp(Interpolation(v, expr, None, "")), Lit("")])
  {
    var args := [RawInterpolation(v, expr, None, None)];
    var x := Interp(Interpolation(v, expr, None, ""));
    assert args[1..] == [];
    assert Interleave([], false) == [Lit("")];
    assert Interleave(args, false) == [Lit("")] + [x] + [Lit("")];
    assert [Lit("")] + [x] + [Lit("")] == [Lit(""), x, Lit("")];
  }

  /** `t""` is `("",)`. */
  lemma TEmpty()
    ensures T([]) == Ok([Lit("")])
  {
  }

  /** Two strings side by side make `t()` fail its parity check: `t("a", "b")`. */
  lemma TAdjacentStrings(a: string, b: string)
    ensures T([RawStr(a), RawStr(b)]).Err?
  {
    var args := [RawStr(a), RawStr(b)];
    assert args[1..][1..] == [];
    assert Interleave(args[1..], true) == [Lit(b)] + Interleave([], true);
    assert Interleave(args, false) == [Lit(a)] + ([Lit(b)] + []);
  }

  // ---------------------------------------------------------------------------
  // Concatenation: Template.__add__ and Template.__radd__
  // ---------------------------------------------------------------------------

  predicate EndsWithLit(t: Template) {
    |t| > 0 && t[|t| - 1].Lit?
  }

  predicate StartsWithLit(t: Template) {
    |t| > 0 && t[0].Lit?
  }

  /** `template + "s"`: the string joins the last literal; no part is added. */
  function AddStr(t: Template, s: string): (r: Template)
    requires EndsWithLit(t)
    ensures |r| == |t|
    ensures r[..|t| - 1] == t[..|t| - 1]
    ensures r[|t| - 1] == Lit(t[|t| - 1].text + s)
    ensures WellFormed(t) ==> WellFormed(r)
  {
    t[..|t| - 1] + [Lit(t[|t| - 1].text + s)]
  }

  /** `"s" + template`: the string joins the first literal; no part is added. */
  function RAddStr(s: string, t: Template): (r: Template)
    requires StartsWithLit(t)
    ensures |r| == |t|
    ensures r[0] == Lit(s + t[0].text)
    ensures r[1..] == t[1..]
    ensures WellFormed(t) ==> WellFormed(r)
  {
    [Lit(s + t[0].text)] + t[1..]
  }

  /** `a + b`: the seam literals merge, so the result has one part fewer than both. */
  function AddTemplate(a: Template, b: Template): (r: Template)
    requires EndsWithLit(a) && StartsWithLit(b)
    ensures |r| == |a| + |b| - 1
    ensures r[..|a| - 1] == a[..|a| - 1]
    ensures r[|a| - 1] == Lit(a[|a| - 1].text + b[0].text)
    ensures r[|a|..] == b[1..]
    ensures WellFormed(a) && WellFormed(b) ==> WellFormed(r)
    ensures StartsWithLit(a) && EndsWithLit(b) ==> StartsWithLit(r) && EndsWithLit(r)
  {
    var r := a[..|a| - 1] + [Lit(a[|a| - 1].text + b[0].text)] + b[1..];
    assert forall i :: |a| <= i < |r| ==> r[i] == b[i - |a| + 1];
    SeamWellFormed(a, b, r);
    r
  }

  /** Merging the seam of two well-formed templates keeps the alternation. */
  lemma SeamWellFormed(a: Template, b: Template, r: Template)
    requires |a| > 0 && |b| > 0 && |r| == |a| + |b| - 1
    requires forall i :: 0 <= i < |a| - 1 ==> r[i] == a[i]
    requires r[|a| - 1].Lit?
    requires forall i :: |a| <= i < |r| ==> r[i] == b[i - |a| + 1]
    ensures WellFormed(a) && WellFormed(b) ==> WellFormed(r)
  {
    if WellFormed(a) && WellFormed(b) {
      var n := |a| - 1;
      assert n % 2 == 0 by { assert a[n].Lit?; }
      forall i | 0 <= i < |r| ensures r[i].Lit? <==> i % 2 == 0 {
        if i < n {
          assert r[i] == a[i];
        } else if i > n {
          SeamIndex(b, r, n, i);
        }
      }
    }
  }

  /** Past the seam, `r` is `b` shifted by an even offset. */
  lemma SeamIndex(b: Template, r: Template, n: nat, i: nat)
    requires n % 2 == 0 && n < i < |r| && |r| == n + |b|
    requires forall j :: n + 1 <= j < |r| ==> r[j] == b[j - n]
    requires forall j :: 0 <= j < |b| ==> (b[j].Lit? <==> j % 2 == 0)
    ensures r[i].Lit? <==> i % 2 == 0
  {
    var j := i - n;
    assert r[i] == b[j];
    assert (j % 2 == 0) == (i % 2 == 0);
  }

  /** `template + other` for a template `other`, with the source's checks:
      indexing an empty template is an IndexError, a seam part that is not a
      literal fails an assertion.  The left operand is checked first. */
  function Plus(a: Template, other: Template): (r: Result<Template>)
    ensures r.Ok? <==> EndsWithLit(a) && StartsWithLit(other)
    ensures r.Ok? ==> r.value == AddTemplate(a, other)
    ensures r.Err? ==> r.error.kind == (if |a| == 0 || (EndsWithLit(a) && |other| == 0) then IndexError else AssertionError)
  {
    if |a| == 0 then Err(Error(IndexError, "tuple index out of range"))
    else if !a[|a| - 1].Lit? then Err(Error(AssertionError, ""))
    else if |other| == 0 then Err(Error(IndexError, "tuple index out of range"))
    else if !other[0].Lit? then Err(Error(AssertionError, ""))
    else Ok(AddTemplate(a, other))
  }

  /** `template + s` for a string `s`, with the source's check of the last part. */
  function PlusStr(a: Template, s: string): (r: Result<Template>)
    ensures r.Ok? <==> EndsWithLit(a)
    ensures r.Ok? ==> r.value == AddStr(a, s)
    ensures r.Err? ==> r.error.kind == (if |a| == 0 then IndexError else AssertionError)
  {
    if |a| == 0 then Err(Error(IndexError, "tuple index out of range"))
    else if !a[|a| - 1].Lit? then Err(Error(AssertionError, ""))
    else Ok(AddStr(a, s))
  }

  /** `s + template` for a string `s`, with the source's check of the first part. */
  function StrPlus(s: string, a: Template): (r: Result<Template>)
    ensures r.Ok? <==> StartsWithLit(a)
    ensures r.Ok? ==> r.value == RAddStr(s, a)
    ensures r.Err? ==> r.error.kind == (if |a| == 0 then IndexError else AssertionError)
  {
    if |a| == 0 then Err(Error(IndexError, "tuple index out of range"))
    else if !a[0].Lit? then Err(Error(AssertionError, ""))
    else Ok(RAddStr(s, a))
  }

  /** Templates made by `t()` always end and start with a literal, so `+`
      between them and with strings never fails. */
  lemma {:induction false} InterleaveEnds(args: seq<RawArg>, lastWasStr: bool)
    requires |args| > 0 || !lastWasStr
    ensures var r := Interleave(args, lastWasStr);
      |r| > 0 && r[|r| - 1].Lit? && (!lastWasStr || args[0].RawStr? ==> r[0].Lit?)
  {
    if |args| > 0 {
      match args[0]
      case RawStr(_) =>
        if |args| > 1 { InterleaveEnds(args[1..], true); }
        else { assert args[1..] == []; }
      case RawInterpolation(_, _, _, _) =>
        InterleaveEnds(args[1..], false);
    }
  }

  lemma TPlusSucceeds(x: seq<RawArg>, y: seq<RawArg>, s: string)
    requires T(x).Ok? && T(y).Ok?
    ensures Plus(T(x).value, T(y).value).Ok?
    ensures PlusStr(T(x).value, s).Ok? && StrPlus(s, T(x).value).Ok?
  {
    assert T(x).value == Interleave(x, false) && T(y).value == Interleave(y, false);
    InterleaveEnds(x, false);
    InterleaveEnds(y, false);
  }

  /** Adding a string is adding the one-literal template holding it. */
  lemma AddStrIsAddTemplate(t: Template, s: string)
    requires EndsWithLit(t)
    ensures AddStr(t, s) == AddTemplate(t, [Lit(s)])
  {
  }

  /** Prefixing a string is adding the one-literal template holding it. */
  lemma RAddStrIsAddTemplate(s: string, t: Template)
    requires StartsWithLit(t)
    ensures RAddStr(s, t) == AddTemplate([Lit(s)], t)
  {
  }

  /** Concatenation is associative. */
  lemma AddTemplateAssociative(a: Template, b: Template, c: Template)
    requires EndsWithLit(a) && StartsWithLit(b) && EndsWithLit(b) && StartsWithLit(c)
    ensures AddTemplate(AddTemplate(a, b), c) == AddTemplate(a, AddTemplate(b, c))
  {
    var ab := AddTemplate(a, b);
    var bc := AddTemplate(b, c);
    var l := AddTemplate(ab, c);
    var r := AddTemplate(a, bc);
    assert |l| == |r|;
    if |b| == 1 {
      assert l[|a| - 1] == r[|a| - 1];
    }
    forall i | 0 <= i < |l| ensures l[i] == r[i] {
      if i < |a| - 1 {
        assert l[i] == ab[i] == a[i];
      } else if i == |a| - 1 {
      } else if i < |a| + |b| - 2 {
        assert l[i] == ab[i] == b[i - |a| + 1];
        assert r[i] == bc[i - |a| + 1];
      } else if i == |a| + |b| - 2 {
        assert r[i] == bc[|b| - 1];
      } else {
        assert l[i] == c[i - |ab| + 1];
        assert r[i] == bc[i - |a| + 1];
      }
    }
  }
}
