/** Structured logging with templates (pep/logging.py).

  A template log message has two readings: the human-readable `message`,
  which is `f` of the template, and the structured `values`, a mapping from
  each interpolation's expression text to its value.  `data` pairs the two
  under the keys "message" and "values"; the formatters encode one reading or
  both.  The JSON encoder is not modelled: the model stops at the mapping it
  is given.
 */
module Logging {
  import opened Wrappers
  import opened OrderedDict
  import opened Templates
  import opened FString

  /** The (expression, value) pairs of the interpolations, in template order. */
  function ExprPairs(t: Template): (ps: seq<(string, Value)>)
    ensures |ps| == |Interpolations(t)|
    ensures forall i :: 0 <= i < |ps| ==> ps[i] == (Interpolations(t)[i].expression, Interpolations(t)[i].value)
  {
    var xs := Interpolations(t);
    seq(|xs|, i requires 0 <= i < |xs| => (xs[i].expression, xs[i].value))
  }

  /** `values`: `{item.expression: item.value for item in template if it is an Interpolation}`;
      `ValuesFormatter.values` is the same mapping. */
  function Values(t: Template): (r: Dict<Value>)
    ensures UniqueKeys(r)
    ensures forall k :: Get(r, k).Some? <==> HasKey(ExprPairs(t), k)
    ensures forall i :: 0 <= i < |ExprPairs(t)| && LastForKey(ExprPairs(t), i) ==>
      Get(r, Interpolations(t)[i].expression) == Some(Interpolations(t)[i].value)
    ensures FirstOccurrenceOrder(r, ExprPairs(t))
  {
    FromPairs(ExprPairs(t))
  }

  /** `message`, and `MessageFormatter.message`: the f-string rendering.  It
      succeeds exactly when every interpolation that `values` is built from
      formats, and otherwise fails with the error of the first one that does
      not. */
  function Message(b: Builtins, t: Template): (r: Result<string>)
    ensures r.Ok? <==> forall i :: 0 <= i < |Interpolations(t)| ==> RenderInterpolation(b, Interpolations(t)[i]).Ok?
    ensures r.Err? ==>
      exists i :: && 0 <= i < |Interpolations(t)|
                  && RenderInterpolation(b, Interpolations(t)[i]) == Err(r.error)
                  && forall j :: 0 <= j < i ==> RenderInterpolation(b, Interpolations(t)[j]).Ok?
  {
    var r := F(b, t);
    InterpolationsAll(t, x => RenderInterpolation(b, x).Ok?);
    MessageError(b, t);
    r
  }

  /** The error of `f` is that of the first failing element of `Interpolations(t)`. */
  lemma MessageError(b: Builtins, t: Template)
    ensures F(b, t).Err? ==>
      exists i :: && 0 <= i < |Interpolations(t)|
                  && RenderInterpolation(b, Interpolations(t)[i]) == Err(F(b, t).error)
                  && forall j :: 0 <= j < i ==> RenderInterpolation(b, Interpolations(t)[j]).Ok?
  {
    if F(b, t).Err? {
      var k :| && 0 <= k < |t| && t[k].Interp?
               && RenderInterpolation(b, t[k].interpolation) == Err(F(b, t).error)
               && forall j :: 0 <= j < k && t[j].Interp? ==> RenderInterpolation(b, t[j].interpolation).Ok?;
      FirstFailingInterpolation(b, t, k);
      var i := |Interpolations(t[..k])|;
      assert Interpolations(t)[i] == t[k].interpolation;
    }
  }

  /** Position `k` of `t`, reached with every earlier interpolation formatting,
      is position `|Interpolations(t[..k])|` of `Interpolations(t)`, reached
      with every earlier element formatting. */
  lemma FirstFailingInterpolation(b: Builtins, t: Template, k: nat)
    requires k < |t| && t[k].Interp?
    requires forall j :: 0 <= j < k && t[j].Interp? ==> RenderInterpolation(b, t[j].interpolation).Ok?
    ensures |Interpolations(t[..k])| < |Interpolations(t)|
    ensures Interpolations(t)[|Interpolations(t[..k])|] == t[k].interpolation
    ensures forall j :: 0 <= j < |Interpolations(t[..k])| ==> RenderInterpolation(b, Interpolations(t)[j]).Ok?
  {
    var pre, post := t[..k], t[k..];
    assert t == pre + post;
    InterpolationsAppend(pre, post);
    assert post[0] == t[k];
    assert Interpolations(post) == [t[k].interpolation] + Interpolations(post[1..]);
    var p := x => RenderInterpolation(b, x).Ok?;
    assert EveryInterpolation(pre, p) by {
      forall j | 0 <= j < |pre| && pre[j].Interp? ensures p(pre[j].interpolation) {
        assert pre[j] == t[j];
      }
    }
    InterpolationsAll(pre, p);
    forall j | 0 <= j < |Interpolations(pre)| ensures RenderInterpolation(b, Interpolations(t)[j]).Ok? {
      assert Interpolations(t)[j] == Interpolations(pre)[j];
      assert p(Interpolations(pre)[j]);
    }
  }

  /** The two entries of `data`. */
  datatype Field = MessageField(text: string) | ValuesField(values: Dict<Value>)

  /** `data`: `{"message": message, "values": values}`; also the mapping
      `CombinedFormatter.format` encodes. */
  function Data(b: Builtins, t: Template): (r: Result<Dict<Field>>)
    ensures r.Ok? <==> F(b, t).Ok?
    ensures r.Err? ==> r.error == F(b, t).error
    ensures r.Ok? ==> Keys(r.value) == ["message", "values"]
    ensures r.Ok? ==> Get(r.value, "message") == Some(MessageField(F(b, t).value))
    ensures r.Ok? ==> Get(r.value, "values") == Some(ValuesField(Values(t)))
  {
    var message :- Message(b, t);
    var d := [("message", MessageField(message)), ("values", ValuesField(Values(t)))];
    assert UniqueKeys(d);
    GetUnique(d, 0);
    GetUnique(d, 1);
    Ok(d)
  }

  /** A repeated expression takes its last value; its place in `Values` is
      that of its first occurrence, by `FirstOccurrenceOrder`. */
  lemma ValuesLastWins(t: Template, i: nat, j: nat)
    requires i < j < |Interpolations(t)|
    requires Interpolations(t)[i].expression == Interpolations(t)[j].expression
    requires LastForKey(ExprPairs(t), j)
    ensures Get(Values(t), Interpolations(t)[i].expression) == Some(Interpolations(t)[j].value)
  {
  }

  /** The template of `t"Hello, {name}!"` with `name` bound to "world". */
  function HelloTemplate(): Template {
    [Lit("Hello, "), Interp(Interpolation(Str("world"), "name", None, "")), Lit("!")]
  }

  /** `TemplateMessage(t"Hello, {name}!").data` with `name = "world"`. */
  lemma HelloData(b: Builtins)
    requires b.format(Str("world"), "") == Ok("world")
    ensures Data(b, HelloTemplate()) ==
      Ok([("message", MessageField("Hello, world!")), ("values", ValuesField([("name", Str("world"))]))])
  {
    HelloMessage(b);
    HelloValues();
  }

  lemma HelloValues()
    ensures Values(HelloTemplate()) == [("name", Str("world"))]
  {
    var t := HelloTemplate();
    var x := Interpolation(Str("world"), "name", None, "");
    assert t[1..][1..][1..] == [];
    assert Interpolations(t[1..][1..]) == [];
    assert Interpolations(t) == [x];
    assert ExprPairs(t) == [("name", Str("world"))];
    FromPairsUnique(ExprPairs(t));
  }

  lemma HelloMessage(b: Builtins)
    requires b.format(Str("world"), "") == Ok("world")
    ensures F(b, HelloTemplate()) == Ok("Hello, world!")
  {
    var t := HelloTemplate();
    var x := Interpolation(Str("world"), "name", None, "");
    var piece := Piece(b);
    RenderWithAppend([Lit("Hello, ")], [Interp(x), Lit("!")], piece);
    RenderWithAppend([Interp(x)], [Lit("!")], piece);
    assert [Lit("Hello, ")] + ([Interp(x)] + [Lit("!")]) == t;
    RenderWithOne(Lit("Hello, "), piece);
    RenderWithOne(Interp(x), piece);
    RenderWithOne(Lit("!"), piece);
    assert F(b, t) == Ok("Hello, " + ("world" + "!"));
    assert "Hello, " + ("world" + "!") == "Hello, world!";
  }
}
