/** The HTML template engine of pep/web.py: the tree builder behind
  `HTMLTemplateParser`, the dispatch of interpolation values, the component
  substitution and the `html()` driver.

  The standard library tokenizer is not modelled.  It is a parameter: a
  `Tokenizer` turns fed text into the calls it would make on the parser, as
  a sequence of `Event`s.  `TagOpen` is the `parse_starttag` hook, emitted
  when the tokenizer starts reading a start tag whose end has not arrived
  yet.  The builder is a fold of those events over an explicit stack.
 */
module Web {
  import opened Wrappers
  import opened OrderedDict
  import opened Markup
  import opened Templates

  datatype Event =
    | TagOpen
    | StartTag(tag: string, attrs: seq<(string, Option<string>)>)
    | EndTag(tag: string)
    | Data(text: string)

  /** The tokenizer: a state, `feed` (text in, events out) and `close`. */
  datatype Tokenizer<!S> = Tokenizer(init: S, feed: (S, string) -> (S, seq<Event>), close: S -> seq<Event>)

  /** The parser's fields: the open elements, the finished root, and whether a
      start tag is being read. */
  datatype Builder = Builder(stack: seq<Element>, root: Option<Element>, inStartTag: bool)

  const EmptyBuilder: Builder := Builder([], None, false)

  /** The builder invariant: a finished root closes every element, and the
      root and every open element pass `Element`'s own check (a fragment
      carries no attributes).  The check is that of one element: it does not
      look into children. */
  predicate Consistent(bd: Builder) {
    && (bd.root.Some? ==> |bd.stack| == 0 && Valid(bd.root.value))
    && forall i :: 0 <= i < |bd.stack| ==> Valid(bd.stack[i])
  }

  // ---------------------------------------------------------------------------
  // str.strip
  // ---------------------------------------------------------------------------

  /** Python's `str.isspace` for one character: the ASCII controls \t to \r,
      the separators \x1c to \x1f, the space, and the Unicode spaces and
      line and paragraph separators. */
  predicate IsSpace(c: char) {
    || '\t' <= c <= '\r'
    || '\U{1c}' <= c <= ' '
    || c == '\U{85}' || c == '\U{a0}' || c == '\U{1680}'
    || '\U{2000}' <= c <= '\U{200a}'
    || c == '\U{2028}' || c == '\U{2029}' || c == '\U{202f}' || c == '\U{205f}' || c == '\U{3000}'
  }

  /** The number of whitespace characters `s` starts with. */
  function LeadingSpaces(s: string): (n: nat)
    ensures n <= |s|
    ensures forall k :: 0 <= k < n ==> IsSpace(s[k])
    ensures n < |s| ==> !IsSpace(s[n])
  {
    if |s| > 0 && IsSpace(s[0]) then
      assert forall k :: 0 < k < |s| ==> s[k] == s[1..][k - 1];
      1 + LeadingSpaces(s[1..])
    else 0
  }

  /** The number of whitespace characters `s` ends with. */
  function TrailingSpaces(s: string): (n: nat)
    ensures n <= |s|
    ensures forall k :: |s| - n <= k < |s| ==> IsSpace(s[k])
    ensures n < |s| ==> !IsSpace(s[|s| - n - 1])
  {
    if |s| > 0 && IsSpace(s[|s| - 1]) then
      assert forall k :: 0 <= k < |s| - 1 ==> s[k] == s[..|s| - 1][k];
      1 + TrailingSpaces(s[..|s| - 1])
    else 0
  }

  function TrimStart(s: string): (r: string)
    ensures |r| <= |s| && r == s[|s| - |r|..]
    ensures forall i :: 0 <= i < |s| - |r| ==> IsSpace(s[i])
    ensures r != "" ==> !IsSpace(r[0])
  {
    s[LeadingSpaces(s)..]
  }

  function TrimEnd(s: string): (r: string)
    ensures |r| <= |s| && r == s[..|r|]
    ensures forall i :: |r| <= i < |s| ==> IsSpace(s[i])
    ensures r != "" ==> !IsSpace(r[|r| - 1])
  {
    s[..|s| - TrailingSpaces(s)]
  }

  /** `s.strip()`. */
  function Strip(s: string): (r: string)
    ensures |r| <= |s|
    ensures r != "" ==> !IsSpace(r[0]) && !IsSpace(r[|r| - 1])
  {
    TrimEnd(TrimStart(s))
  }

  /** What `Strip` removes: it keeps the slice of `s` from the first
      non-space on, dropping only whitespace before and after it. */
  lemma StripSlice(s: string)
    ensures var i := |s| - |TrimStart(s)|;
            var j := i + |Strip(s)|;
            && 0 <= i <= j <= |s| && Strip(s) == s[i..j]
            && (forall k :: 0 <= k < i ==> IsSpace(s[k]))
            && (forall k :: j <= k < |s| ==> IsSpace(s[k]))
  {
    var a := TrimStart(s);
    TrimEndSlice(s, a, |s| - |a|, TrimEnd(a));
  }

  /** The information separators \x1c to \x1f are whitespace to `strip`,
      so data made of them alone is dropped like blank text. */
  lemma StripSeparators(bd: Builder)
    ensures Strip("\U{1c}\U{1d}\U{1e}\U{1f}") == ""
    ensures HandleData(bd, "\U{1c}\U{1d}\U{1e}\U{1f}") == Ok(bd)
  {
    var s := "\U{1c}\U{1d}\U{1e}\U{1f}";
    assert forall i :: 0 <= i < |s| ==> IsSpace(s[i]);
  }

  /** Trimming the end of the suffix `a` of `s` from `i` keeps `s[i..i + |r|]`
      and drops only whitespace after it. */
  lemma TrimEndSlice(s: string, a: string, i: nat, r: string)
    requires i <= |s| && a == s[i..] && r == TrimEnd(a)
    ensures i + |r| <= |s| && r == s[i..i + |r|]
    ensures forall k :: i + |r| <= k < |s| ==> IsSpace(s[k])
  {
    forall k | i + |r| <= k < |s| ensures IsSpace(s[k]) {
      assert s[k] == a[k - i];
    }
  }

  // ---------------------------------------------------------------------------
  // The parser handlers
  // ---------------------------------------------------------------------------

  /** `handle_starttag`: open a new element, unless the root is already closed. */
  function HandleStartTag(bd: Builder, tag: string, attrs: seq<(string, Option<string>)>): (r: Result<Builder>)
    ensures bd.root.Some? ==> r == Err(Error(HTMLParseError, "Multiple root elements (" + bd.root.value.tag + " and " + tag + ")"))
    ensures bd.root.None? ==> (r.Ok? <==> tag != "" || |FromPairs(attrs)| == 0)
    ensures r.Err? && bd.root.None? ==> r.error.kind == ValueError
    ensures r.Ok? ==> r.value == Builder(bd.stack + [Element(tag, FromPairs(attrs), [])], None, false)
    ensures r.Ok? && Consistent(bd) ==> Consistent(r.value)
  {
    if bd.root.Some? then
      Err(Error(HTMLParseError, "Multiple root elements (" + bd.root.value.tag + " and " + tag + ")"))
    else
      var element :- MakeElement(tag, FromPairs(attrs), []);
      Ok(Builder(bd.stack + [element], bd.root, false))
  }

  /** `handle_endtag`: close the innermost element, which must carry `tag`;
      it becomes the root or the last child of its parent. */
  function HandleEndTag(bd: Builder, tag: string): (r: Result<Builder>)
    ensures |bd.stack| == 0 ==> r.Err? && r.error.kind == IndexError
    ensures |bd.stack| > 0 && bd.stack[|bd.stack| - 1].tag != tag ==>
      r == Err(Error(HTMLParseError, "Unexpected end tag: " + tag))
    ensures r.Ok? <==> |bd.stack| > 0 && bd.stack[|bd.stack| - 1].tag == tag
    ensures r.Ok? && |bd.stack| == 1 ==> r.value == Builder([], Some(bd.stack[0]), bd.inStartTag)
    ensures r.Ok? && |bd.stack| > 1 ==> var n := |bd.stack|;
      r.value == Builder(bd.stack[..n - 2] + [Append(bd.stack[n - 2], Child(bd.stack[n - 1]))], bd.root, bd.inStartTag)
    ensures r.Ok? && Consistent(bd) ==> Consistent(r.value)
  {
    if |bd.stack| == 0 then Err(Error(IndexError, "pop from empty list"))
    else
      var n := |bd.stack|;
      var element := bd.stack[n - 1];
      var stack := bd.stack[..n - 1];
      if element.tag != tag then Err(Error(HTMLParseError, "Unexpected end tag: " + tag))
      else if |stack| == 0 then Ok(Builder([], Some(element), bd.inStartTag))
      else Ok(Builder(stack[..n - 2] + [Append(stack[n - 2], Child(element))], bd.root, bd.inStartTag))
  }

  /** `handle_data`: whitespace-only data is dropped; other data, stripped,
      becomes the last child of the innermost open element. */
  function HandleData(bd: Builder, data: string): (r: Result<Builder>)
    ensures Strip(data) == "" ==> r == Ok(bd)
    ensures Strip(data) != "" && |bd.stack| == 0 ==>
      r == Err(Error(HTMLParseError, "Data outside of root element: " + Strip(data)))
    ensures Strip(data) != "" && |bd.stack| > 0 ==> var n := |bd.stack|;
      r == Ok(bd.(stack := bd.stack[..n - 1] + [Append(bd.stack[n - 1], Text(Strip(data)))]))
    ensures r.Ok? && Consistent(bd) ==> Consistent(r.value)
  {
    var text := Strip(data);
    if text == "" then Ok(bd)
    else if |bd.stack| == 0 then Err(Error(HTMLParseError, "Data outside of root element: " + text))
    else
      var n := |bd.stack|;
      var top := Append(bd.stack[n - 1], Text(text));
      ReplaceTop(bd, top);
      Ok(bd.(stack := bd.stack[..n - 1] + [top]))
  }

  /** Replacing the innermost open element by a valid one keeps the invariant. */
  lemma ReplaceTop(bd: Builder, top: Element)
    requires |bd.stack| > 0
    requires Valid(bd.stack[|bd.stack| - 1]) ==> Valid(top)
    ensures Consistent(bd) ==> Consistent(bd.(stack := bd.stack[..|bd.stack| - 1] + [top]))
  {
    var n := |bd.stack|;
    var s := bd.stack[..n - 1] + [top];
    if Consistent(bd) {
      assert bd.root.None? by { assert |bd.stack| > 0; }
      forall i | 0 <= i < n ensures Valid(s[i]) {
        if i < n - 1 { assert s[i] == bd.stack[i]; }
      }
    }
  }

  function Handle(bd: Builder, ev: Event): (r: Result<Builder>)
    ensures r.Ok? && Consistent(bd) ==> Consistent(r.value)
  {
    match ev
    case TagOpen => Ok(bd.(inStartTag := true))
    case StartTag(tag, attrs) => HandleStartTag(bd, tag, attrs)
    case EndTag(tag) => HandleEndTag(bd, tag)
    case Data(text) => HandleData(bd, text)
  }

  /** The events in order; the first handler that raises stops the parse. */
  function HandleAll(bd: Builder, evs: seq<Event>): (r: Result<Builder>)
    ensures r.Ok? && Consistent(bd) ==> Consistent(r.value)
    decreases |evs|
  {
    if |evs| == 0 then Ok(bd)
    else
      var next :- Handle(bd, evs[0]);
      HandleAll(next, evs[1..])
  }

  lemma {:induction false} HandleAllAppend(bd: Builder, a: seq<Event>, b: seq<Event>)
    ensures HandleAll(bd, a + b) == match HandleAll(bd, a) case Err(e) => Err(e) case Ok(x) => HandleAll(x, b)
    decreases |a|
  {
    if |a| == 0 {
      assert a + b == b;
    } else {
      assert (a + b)[0] == a[0] && (a + b)[1..] == a[1..] + b;
      match Handle(bd, a[0])
      case Err(_) =>
      case Ok(next) => HandleAllAppend(next, a[1..], b);
    }
  }

  lemma HandleAllOne(bd: Builder, ev: Event)
    ensures HandleAll(bd, [ev]) == Handle(bd, ev)
  {
    assert [ev][1..] == [];
  }

  // ---------------------------------------------------------------------------
  // Building a tree back from its events
  // ---------------------------------------------------------------------------

  /** The events a well-behaved tokenizer produces for an element. */
  function ElementEvents(e: Element): seq<Event>
    decreases e, 1
  {
    [StartTag(e.tag, e.attributes)] + ChildrenEvents(e.children) + [EndTag(e.tag)]
  }

  function ChildrenEvents(cs: seq<Node>): seq<Event>
    decreases cs, 0
  {
    if |cs| == 0 then [] else NodeEvents(cs[0]) + ChildrenEvents(cs[1..])
  }

  function NodeEvents(n: Node): seq<Event>
    decreases n, 2
  {
    match n
    case Text(s) => [Data(s)]
    case Child(e) => ElementEvents(e)
  }

  /** A tree the builder can reproduce: every element tagged with distinct
      attribute names, every text non-empty with no surrounding whitespace. */
  predicate Buildable(e: Element)
    decreases e, 1
  {
    e.tag != "" && UniqueKeys(e.attributes) && BuildableChildren(e.children)
  }

  predicate BuildableChildren(cs: seq<Node>)
    decreases cs, 0
  {
    |cs| == 0 || (BuildableNode(cs[0]) && BuildableChildren(cs[1..]))
  }

  predicate BuildableNode(n: Node)
    decreases n, 2
  {
    match n
    case Text(s) => s != "" && Strip(s) == s
    case Child(e) => Buildable(e)
  }

  /** The open element `top` with more children. */
  function Extend(top: Element, cs: seq<Node>): Element {
    Element(top.tag, top.attributes, top.children + cs)
  }

  /** The result of closing the element `e` above the stack `s`. */
  function Closed(e: Element, s: seq<Element>): Builder {
    if |s| == 0 then Builder([], Some(e), false)
    else Builder(s[..|s| - 1] + [Append(s[|s| - 1], Child(e))], None, false)
  }

  /** Feeding an element's events closes it: it becomes the root, or the
      last child of the element below it on the stack. */
  lemma {:induction false} BuildElement(e: Element, s: seq<Element>)
    requires Buildable(e)
    ensures HandleAll(Builder(s, None, false), ElementEvents(e)) == Ok(Closed(e, s))
    decreases e, 1
  {
    var open := Element(e.tag, e.attributes, []);
    var start := [StartTag(e.tag, e.attributes)];
    var b0 := Builder(s, None, false);
    OpenStep(e, s);
    BuildChildren(e.children, s, open);
    assert Extend(open, e.children) == e;
    CloseStep(e, s);
    HandleAllAppend(b0, start + ChildrenEvents(e.children), [EndTag(e.tag)]);
    HandleAllAppend(b0, start, ChildrenEvents(e.children));
  }

  lemma OpenStep(e: Element, s: seq<Element>)
    requires e.tag != "" && UniqueKeys(e.attributes)
    ensures HandleAll(Builder(s, None, false), [StartTag(e.tag, e.attributes)])
         == Ok(Builder(s + [Element(e.tag, e.attributes, [])], None, false))
  {
    FromPairsUnique(e.attributes);
    HandleAllOne(Builder(s, None, false), StartTag(e.tag, e.attributes));
  }

  lemma CloseStep(e: Element, s: seq<Element>)
    ensures HandleAll(Builder(s + [e], None, false), [EndTag(e.tag)]) == Ok(Closed(e, s))
  {
    var bd := Builder(s + [e], None, false);
    HandleAllOne(bd, EndTag(e.tag));
    assert bd.stack[|s|] == e && bd.stack[..|s|] == s;
    if |s| > 0 {
      assert bd.stack[..|s| + 1 - 2] == s[..|s| - 1];
    }
  }

  lemma {:induction false} BuildChildren(cs: seq<Node>, s: seq<Element>, top: Element)
    requires BuildableChildren(cs)
    ensures HandleAll(Builder(s + [top], None, false), ChildrenEvents(cs)) == Ok(Builder(s + [Extend(top, cs)], None, false))
    decreases cs, 0
  {
    if |cs| == 0 {
      assert top.children + cs == top.children;
    } else {
      var bd := Builder(s + [top], None, false);
      var top' := Append(top, cs[0]);
      BuildNode(cs[0], s, top);
      BuildChildren(cs[1..], s, top');
      HandleAllAppend(bd, NodeEvents(cs[0]), ChildrenEvents(cs[1..]));
      ExtendAppend(top, cs);
    }
  }

  lemma ExtendAppend(top: Element, cs: seq<Node>)
    requires |cs| > 0
    ensures Extend(Append(top, cs[0]), cs[1..]) == Extend(top, cs)
  {
    assert top.children + [cs[0]] + cs[1..] == top.children + cs;
  }

  lemma {:induction false} BuildNode(n: Node, s: seq<Element>, top: Element)
    requires BuildableNode(n)
    ensures HandleAll(Builder(s + [top], None, false), NodeEvents(n)) == Ok(Builder(s + [Append(top, n)], None, false))
    decreases n, 2
  {
    match n
    case Text(text) => TextStep(text, s, top);
    case Child(e) =>
      BuildElement(e, s + [top]);
      ClosedAbove(e, s, top);
  }

  lemma ClosedAbove(e: Element, s: seq<Element>, top: Element)
    ensures Closed(e, s + [top]) == Builder(s + [Append(top, Child(e))], None, false)
  {
    assert (s + [top])[..|s|] == s;
  }

  lemma TextStep(text: string, s: seq<Element>, top: Element)
    requires text != "" && Strip(text) == text
    ensures HandleAll(Builder(s + [top], None, false), [Data(text)]) == Ok(Builder(s + [Append(top, Text(text))], None, false))
  {
    var bd := Builder(s + [top], None, false);
    HandleAllOne(bd, Data(text));
    var n := |bd.stack|;
    assert n == |s| + 1 && bd.stack[..n - 1] == s && bd.stack[n - 1] == top;
    assert HandleData(bd, text) == Ok(bd.(stack := bd.stack[..n - 1] + [Append(bd.stack[n - 1], Text(text))]));
  }

  /** A buildable tree fed to a fresh parser comes back as its root. */
  lemma BuildRoundTrip(e: Element)
    requires Buildable(e)
    ensures HandleAll(EmptyBuilder, ElementEvents(e)) == Ok(Builder([], Some(e), false))
  {
    BuildElement(e, []);
  }

  // ---------------------------------------------------------------------------
  // Interpolation values
  // ---------------------------------------------------------------------------

  /** The Python type name an error message reports for a value. */
  function TypeName(v: Value): string {
    match v
    case Str(_) => "str"
    case AttrMap(_) => "dict"
    case Elem(_) => "Element"
    case Tmpl(_) => "Template"
    case Callable(_) => "function"
    case Other(_) => "object"
  }

  /** `_process_start_tag_interpolation`: an attribute mapping renders as
      attributes, a string as a quoted escaped value, anything else fails. */
  function StartTagValue(v: Value): (r: Result<string>)
    ensures v.AttrMap? ==> r == Ok(RenderAttributes(v.attributes))
    ensures v.Str? ==> r == Ok("\"" + Escape(v.s, true) + "\"")
    ensures r.Ok? <==> v.AttrMap? || v.Str?
    ensures r.Err? ==> r.error.kind == HTMLParseError
  {
    match v
    case AttrMap(attributes) => Ok(RenderAttributes(attributes))
    case Str(s) => Ok("\"" + Escape(s, true) + "\"")
    case _ => Err(Error(HTMLParseError, "Unsupported start tag interpolation: " + TypeName(v)))
  }

  /** A string in a start tag becomes one quoted attribute value: no quote
      inside can end it early, and unescaping gives the string back. */
  lemma StartTagStrQuoted(s: string)
    ensures StartTagValue(Str(s)).Ok?
    ensures var r := StartTagValue(Str(s)).value;
      && |r| >= 2 && r[0] == '"' && r[|r| - 1] == '"'
      && (forall i :: 0 < i < |r| - 1 ==> r[i] != '"')
      && Unescape(r[1..|r| - 1]) == s
  {
    var e := Escape(s, true);
    var r := "\"" + e + "\"";
    assert forall i :: 0 < i < |r| - 1 ==> r[i] == e[i - 1];
    assert r[1..|r| - 1] == e;
    EscapeRoundTrip(s, true);
  }

  /** The Python callables the engine needs: the tokenizer, the expression
      cleaner of `_make_component_name`, and component invocation. */
  datatype Env<!S> = Env(
    tokenizer: Tokenizer<S>,
    clean: string -> string,
    component: (nat, Attributes, seq<Node>) -> Element)

  /** `_make_component_name(expr)`. */
  function ComponentName<S>(env: Env<S>, expr: string): string {
    "component-" + env.clean(expr) + "-component"
  }

  /** `_process_content_interpolation`: an element renders as itself, a
      template as the element `html` makes of it, a string escaped without
      quoting; anything else, a mapping included, fails. */
  function ContentValue<S>(env: Env<S>, v: Value): (r: Result<string>)
    ensures v.Elem? ==> r == Ok(Render(v.element))
    ensures v.Str? ==> r == Ok(Escape(v.s, false))
    ensures v.Tmpl? ==> r == match Html(env, v.parts) case Ok(e) => Ok(Render(e)) case Err(x) => Err(x)
    ensures !(v.Elem? || v.Str? || v.Tmpl?) ==> r == Err(Error(HTMLParseError, "Unsupported content interpolation: " + TypeName(v)))
    decreases v, 0
  {
    match v
    case Elem(e) => Ok(Render(e))
    case Tmpl(parts) =>
      var e :- Html(env, parts);
      Ok(Render(e))
    case Str(s) => Ok(Escape(s, false))
    case _ => Err(Error(HTMLParseError, "Unsupported content interpolation: " + TypeName(v)))
  }

  /** A string in content is inert text: it cannot open or close a tag, and
      unescaping gives it back. */
  lemma ContentStrInert<S>(env: Env<S>, s: string)
    ensures ContentValue(env, Str(s)).Ok?
    ensures var r := ContentValue(env, Str(s)).value;
      (forall i :: 0 <= i < |r| ==> r[i] != '<' && r[i] != '>') && Unescape(r) == s
  {
    EscapeRoundTrip(s, false);
  }

  // ---------------------------------------------------------------------------
  // Components
  // ---------------------------------------------------------------------------

  /** `_invoke_components`: resolve the children first, then replace an
      element whose tag names a registered component by that component's
      result; any other element keeps its tag and attributes. */
  function InvokeComponents(e: Element, components: Dict<nat>, call: (nat, Attributes, seq<Node>) -> Element): (r: Element)
    ensures Get(components, e.tag).Some? ==>
      r == call(Get(components, e.tag).value, e.attributes, InvokeChildren(e.children, components, call))
    ensures Get(components, e.tag).None? ==>
      r == Element(e.tag, e.attributes, InvokeChildren(e.children, components, call))
    ensures Valid(e) && ResultsValid(call) ==> Valid(r)
    decreases e, 1
  {
    var children := InvokeChildren(e.children, components, call);
    match Get(components, e.tag)
    case Some(id) => call(id, e.attributes, children)
    case None => Element(e.tag, e.attributes, children)
  }

  /** Every component returns a valid element, as any `Element` Python
      constructs is. */
  ghost predicate ResultsValid(call: (nat, Attributes, seq<Node>) -> Element) {
    forall id, attributes, children :: Valid(call(id, attributes, children))
  }

  function InvokeChildren(cs: seq<Node>, components: Dict<nat>, call: (nat, Attributes, seq<Node>) -> Element): (r: seq<Node>)
    ensures |r| == |cs|
    ensures forall i :: 0 <= i < |cs| ==> r[i] == InvokeNode(cs[i], components, call)
    decreases cs, 0
  {
    if |cs| == 0 then []
    else
      var head := InvokeNode(cs[0], components, call);
      var rest := InvokeChildren(cs[1..], components, call);
      assert forall i :: 0 < i < |cs| ==> cs[i] == cs[1..][i - 1];
      [head] + rest
  }

  function InvokeNode(n: Node, components: Dict<nat>, call: (nat, Attributes, seq<Node>) -> Element): (r: Node)
    ensures n.Text? ==> r == n
    ensures n.Child? ==> r == Child(InvokeComponents(n.element, components, call))
    decreases n, 2
  {
    match n
    case Text(_) => n
    case Child(e) => Child(InvokeComponents(e, components, call))
  }

  /** With no component registered under any of its tags, the tree is unchanged. */
  lemma {:induction false} NoComponents(e: Element, components: Dict<nat>, call: (nat, Attributes, seq<Node>) -> Element)
    requires |components| == 0
    ensures InvokeComponents(e, components, call) == e
    decreases e, 1
  {
    NoComponentsChildren(e.children, components, call);
  }

  lemma {:induction false} NoComponentsChildren(cs: seq<Node>, components: Dict<nat>, call: (nat, Attributes, seq<Node>) -> Element)
    requires |components| == 0
    ensures InvokeChildren(cs, components, call) == cs
    decreases cs, 0
  {
    if |cs| > 0 {
      NoComponentsNode(cs[0], components, call);
      NoComponentsChildren(cs[1..], components, call);
      assert cs == [cs[0]] + cs[1..];
    }
  }

  lemma {:induction false} NoComponentsNode(n: Node, components: Dict<nat>, call: (nat, Attributes, seq<Node>) -> Element)
    requires |components| == 0
    ensures InvokeNode(n, components, call) == n
    decreases n, 2
  {
    if n.Child? {
      NoComponents(n.element, components, call);
    }
  }

  // ---------------------------------------------------------------------------
  // The html() driver
  // ---------------------------------------------------------------------------

  /** The loop state of `html()`: tokenizer, parser and component table. */
  datatype Loop<!S> = Loop(tok: S, builder: Builder, components: Dict<nat>)

  /** `parser.feed(text)`. */
  function Feed<S>(env: Env<S>, st: Loop<S>, text: string): (r: Result<Loop<S>>)
    ensures r.Ok? ==> r.value.components == st.components
  {
    var (tok, evs) := env.tokenizer.feed(st.tok, text);
    var builder :- HandleAll(st.builder, evs);
    Ok(Loop(tok, builder, st.components))
  }

  /** One part of the template: a literal is fed as is; an interpolation is
      processed by where the parser is.  In content a callable registers a
      component under its generated name and that name is fed in its place. */
  function Step<S>(env: Env<S>, p: Part, st: Loop<S>): (r: Result<Loop<S>>)
    ensures p.Interp? && st.builder.inStartTag && StartTagValue(p.interpolation.value).Err? ==>
      r == Err(StartTagValue(p.interpolation.value).error)
    ensures p.Interp? && !st.builder.inStartTag && !p.interpolation.value.Callable?
            && ContentValue(env, p.interpolation.value).Err? ==>
      r == Err(ContentValue(env, p.interpolation.value).error)
    ensures p.Interp? && p.interpolation.value.Callable? && !st.builder.inStartTag && r.Ok? ==>
      Get(r.value.components, ComponentName(env, p.interpolation.expression)) == Some(p.interpolation.value.id)
    ensures r.Ok? ==> Registered(st.components, r.value.components)
    ensures r.Ok? && !(p.Interp? && p.interpolation.value.Callable? && !st.builder.inStartTag) ==>
      r.value.components == st.components
    ensures r.Ok? && Consistent(st.builder) ==> Consistent(r.value.builder)
    decreases p, 1
  {
    match p
    case Lit(s) => Feed(env, st, s)
    case Interp(i) =>
      if st.builder.inStartTag then
        var text :- StartTagValue(i.value);
        Feed(env, st, text)
      else if i.value.Callable? then
        var name := ComponentName(env, i.expression);
        Feed(env, st.(components := Insert(st.components, name, i.value.id)), Escape(name, false))
      else
        var text :- ContentValue(env, i.value);
        Feed(env, st, text)
  }

  /** Every name registered in `before` is still registered in `after`. */
  ghost predicate Registered(before: Dict<nat>, after: Dict<nat>) {
    forall k :: Get(before, k).Some? ==> Get(after, k).Some?
  }

  /** The loop of `html()` over the parts; the first failing part aborts. */
  function Run<S>(env: Env<S>, parts: seq<Part>, st: Loop<S>): (r: Result<Loop<S>>)
    ensures r.Ok? ==> Registered(st.components, r.value.components)
    ensures r.Ok? && Consistent(st.builder) ==> Consistent(r.value.builder)
    ensures |parts| > 0 && Step(env, parts[0], st).Err? ==> r == Err(Step(env, parts[0], st).error)
    decreases parts, 2
  {
    if |parts| == 0 then Ok(st)
    else
      var next :- Step(env, parts[0], st);
      Run(env, parts[1..], next)
  }

  /** A failing `Run` fails at its first failing part: the parts before it
      succeed, and the error is that part's. */
  lemma {:induction false} RunFirstFailure<S>(env: Env<S>, parts: seq<Part>, st: Loop<S>)
    ensures Run(env, parts, st).Err? ==>
      exists k :: && 0 <= k < |parts|
                  && Run(env, parts[..k], st).Ok?
                  && Step(env, parts[k], Run(env, parts[..k], st).value) == Err(Run(env, parts, st).error)
    decreases parts
  {
    if |parts| > 0 && Run(env, parts, st).Err? {
      assert parts[..0] == [];
      if Step(env, parts[0], st).Ok? {
        var next := Step(env, parts[0], st).value;
        RunFirstFailure(env, parts[1..], next);
        var k :| && 0 <= k < |parts[1..]|
                 && Run(env, parts[1..][..k], next).Ok?
                 && Step(env, parts[1..][k], Run(env, parts[1..][..k], next).value) == Err(Run(env, parts, st).error);
        RunPrefixShift(env, parts, st, k);
        assert parts[k + 1] == parts[1..][k];
      }
    }
  }

  /** Running the first `k + 1` parts is the first step, then `k` more. */
  lemma RunPrefixShift<S>(env: Env<S>, parts: seq<Part>, st: Loop<S>, k: nat)
    requires k < |parts| && Step(env, parts[0], st).Ok?
    ensures Run(env, parts[..k + 1], st) == Run(env, parts[1..][..k], Step(env, parts[0], st).value)
  {
    var pre := parts[..k + 1];
    assert pre[0] == parts[0] && pre[1..] == parts[1..][..k];
  }

  /** Parts with no callable among their interpolations register no component. */
  lemma {:induction false} RunWithoutCallables<S>(env: Env<S>, parts: seq<Part>, st: Loop<S>)
    requires forall j :: 0 <= j < |parts| && parts[j].Interp? ==> !parts[j].interpolation.value.Callable?
    ensures Run(env, parts, st).Ok? ==> Run(env, parts, st).value.components == st.components
    decreases parts
  {
    if |parts| > 0 && Step(env, parts[0], st).Ok? {
      RunWithoutCallables(env, parts[1..], Step(env, parts[0], st).value);
    }
  }

  /** `html(template)`: the loop, then `close()`, then the root with its
      components invoked; no root is an HTMLParseError. */
  function Html<S>(env: Env<S>, t: Template): (r: Result<Element>)
    ensures r.Ok? && ResultsValid(env.component) ==> Valid(r.value)
    ensures r.Ok? ==> Run(env, t, Loop(env.tokenizer.init, EmptyBuilder, [])).Ok?
    ensures var run := Run(env, t, Loop(env.tokenizer.init, EmptyBuilder, []));
      run.Err? ==> r == Err(run.error)
    ensures var run := Run(env, t, Loop(env.tokenizer.init, EmptyBuilder, []));
      run.Ok? ==>
        var fin := HandleAll(run.value.builder, env.tokenizer.close(run.value.tok));
        && (fin.Err? ==> r == Err(fin.error))
        && (fin.Ok? && fin.value.root.None? ==> r == Err(Error(HTMLParseError, "No root element")))
        && (fin.Ok? && fin.value.root.Some? ==>
              r == Ok(InvokeComponents(fin.value.root.value, run.value.components, env.component)))
    decreases t, 3
  {
    var st :- Run(env, t, Loop(env.tokenizer.init, EmptyBuilder, []));
    var bd :- HandleAll(st.builder, env.tokenizer.close(st.tok));
    if bd.root.None? then Err(Error(HTMLParseError, "No root element"))
    else Ok(InvokeComponents(bd.root.value, st.components, env.component))
  }

  /** Without a callable among its interpolations, `html()` returns the root
      the parser built, unchanged. */
  lemma HtmlWithoutCallables<S>(env: Env<S>, t: Template)
    requires forall j :: 0 <= j < |t| && t[j].Interp? ==> !t[j].interpolation.value.Callable?
    ensures var run := Run(env, t, Loop(env.tokenizer.init, EmptyBuilder, []));
      run.Ok? ==>
        var fin := HandleAll(run.value.builder, env.tokenizer.close(run.value.tok));
        fin.Ok? && fin.value.root.Some? ==> Html(env, t) == Ok(fin.value.root.value)
  {
    var run := Run(env, t, Loop(env.tokenizer.init, EmptyBuilder, []));
    RunWithoutCallables(env, t, Loop(env.tokenizer.init, EmptyBuilder, []));
    if run.Ok? {
      var fin := HandleAll(run.value.builder, env.tokenizer.close(run.value.tok));
      if fin.Ok? && fin.value.root.Some? {
        NoComponents(fin.value.root.value, run.value.components, env.component);
      }
    }
  }

  /** A template of one literal feeds it and then closes the parser. */
  lemma HtmlOneLiteral<S>(env: Env<S>, s: string)
    ensures Html(env, [Lit(s)]) ==
      var (tok, evs) := env.tokenizer.feed(env.tokenizer.init, s);
      match HandleAll(EmptyBuilder, evs + env.tokenizer.close(tok))
      case Err(x) => Err(x)
      case Ok(bd) =>
        if bd.root.None? then Err(Error(HTMLParseError, "No root element"))
        else Ok(InvokeComponents(bd.root.value, [], env.component))
  {
    var st := Loop(env.tokenizer.init, EmptyBuilder, []);
    assert [Lit(s)][1..] == [];
    assert Run(env, [Lit(s)], st) == Feed(env, st, s);
    var (tok, evs) := env.tokenizer.feed(env.tokenizer.init, s);
    HandleAllAppend(EmptyBuilder, evs, env.tokenizer.close(tok));
  }

  /** A template whose text makes the tokenizer report a buildable element
      renders back to that element. */
  lemma HtmlOfLiteral<S>(env: Env<S>, s: string, e: Element)
    requires Buildable(e)
    requires env.tokenizer.feed(env.tokenizer.init, s).1 == ElementEvents(e)
    requires env.tokenizer.close(env.tokenizer.feed(env.tokenizer.init, s).0) == []
    ensures Html(env, [Lit(s)]) == Ok(e)
  {
    HtmlOneLiteral(env, s);
    BuildRoundTrip(e);
    assert ElementEvents(e) + [] == ElementEvents(e);
    NoComponents(e, [], env.component);
  }

  /** A tokenizer that reports nothing leaves no root. */
  lemma HtmlNoRoot<S>(env: Env<S>, s: string)
    requires env.tokenizer.feed(env.tokenizer.init, s).1 == []
    requires env.tokenizer.close(env.tokenizer.feed(env.tokenizer.init, s).0) == []
    ensures Html(env, [Lit(s)]) == Err(Error(HTMLParseError, "No root element"))
  {
    HtmlOneLiteral(env, s);
    assert HandleAll(EmptyBuilder, [] + []) == Ok(EmptyBuilder);
  }
}
