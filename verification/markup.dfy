/** The immutable HTML `Element` tree of pep/web.py and its serialisation.

  An element with the empty tag is a fragment: it renders as its children
  with no wrapper markup and may not carry attributes.  Text children and
  attribute values are escaped on output; child elements are rendered
  recursively and never escaped again.
 */
module Markup {
  import opened Wrappers
  import opened OrderedDict

  /** Attribute mapping: a string value, or None for a bare attribute. */
  type Attributes = Dict<Option<string>>

  datatype Node = Text(text: string) | Child(element: Element)

  datatype Element = Element(tag: string, attributes: Attributes, children: seq<Node>)

  /** The construction check of `Element.__post_init__`. */
  predicate Valid(e: Element) {
    e.tag != "" || |e.attributes| == 0
  }

  /** `Element(tag, attributes, children)`, which rejects a fragment with attributes. */
  function MakeElement(tag: string, attributes: Attributes, children: seq<Node>): (r: Result<Element>)
    ensures r.Ok? <==> tag != "" || |attributes| == 0
    ensures r.Ok? ==> r.value == Element(tag, attributes, children) && Valid(r.value)
    ensures r.Err? ==> r.error.kind == ValueError
  {
    if |attributes| > 0 && tag == "" then
      Err(Error(ValueError, "Fragments cannot have attributes, only children"))
    else
      Ok(Element(tag, attributes, children))
  }

  /** `Element.fragment(children)`; `Element.empty()` is `Fragment([])`. */
  function Fragment(children: seq<Node>): (r: Element)
    ensures Valid(r)
    ensures Render(r) == RenderChildren(children)
  {
    Element("", [], children)
  }

  /** `Element.append`: a new element with one more child, nothing else changed. */
  function Append(e: Element, child: Node): (r: Element)
    ensures r.tag == e.tag && r.attributes == e.attributes
    ensures |r.children| == |e.children| + 1
    ensures r.children[..|e.children|] == e.children && r.children[|e.children|] == child
    ensures Valid(e) ==> Valid(r)
  {
    Element(e.tag, e.attributes, e.children + [child])
  }

  // ---------------------------------------------------------------------------
  // html.escape and its inverse
  // ---------------------------------------------------------------------------

  /** The replacement `html.escape` makes for one character. */
  function EscapeChar(c: char, quote: bool): string {
    if c == '&' then "&amp;"
    else if c == '<' then "&lt;"
    else if c == '>' then "&gt;"
    else if quote && c == '"' then "&quot;"
    else if quote && c == '\'' then "&#x27;"
    else [c]
  }

  /** A character `html.escape(_, quote=True)` leaves alone. */
  predicate Plain(c: char) {
    c != '&' && c != '<' && c != '>' && c != '"' && c != '\''
  }

  /** `html.escape(s, quote)`. */
  function Escape(s: string, quote: bool): (r: string)
    ensures forall i :: 0 <= i < |r| ==> r[i] != '<' && r[i] != '>'
    ensures quote ==> forall i :: 0 <= i < |r| ==> r[i] != '"' && r[i] != '\''
    ensures (forall i :: 0 <= i < |s| ==> Plain(s[i])) ==> r == s
    ensures |s| <= |r|
  {
    if |s| == 0 then ""
    else
      var head := EscapeChar(s[0], quote);
      var tail := Escape(s[1..], quote);
      EscapeCharSafe(s[0], quote);
      SafeConcat(head, tail, quote);
      assert (forall i :: 0 <= i < |s| ==> Plain(s[i])) ==> head + tail == s by {
        if forall i :: 0 <= i < |s| ==> Plain(s[i]) {
          assert forall i :: 0 <= i < |s| - 1 ==> s[1..][i] == s[i + 1];
          assert [s[0]] + s[1..] == s;
        }
      }
      head + tail
  }

  /** No character of `s` opens or closes markup, or (with quoting) a quoted value. */
  predicate Safe(s: string, quote: bool) {
    forall i :: 0 <= i < |s| ==> s[i] != '<' && s[i] != '>' && (quote ==> s[i] != '"' && s[i] != '\'')
  }

  lemma EscapeCharSafe(c: char, quote: bool)
    ensures Safe(EscapeChar(c, quote), quote)
    ensures 1 <= |EscapeChar(c, quote)|
    ensures Plain(c) ==> EscapeChar(c, quote) == [c]
  {
  }

  lemma SafeConcat(a: string, b: string, quote: bool)
    requires Safe(a, quote) && Safe(b, quote)
    ensures Safe(a + b, quote)
  {
    assert forall i :: |a| <= i < |a + b| ==> (a + b)[i] == b[i - |a|];
  }

  predicate StartsWith(s: string, prefix: string) {
    |prefix| <= |s| && s[..|prefix|] == prefix
  }

  /** Decoding of the five entities `Escape` produces (a subset of `html.unescape`). */
  function Unescape(s: string): string
    decreases |s|
  {
    if |s| == 0 then ""
    else if StartsWith(s, "&amp;") then "&" + Unescape(s[5..])
    else if StartsWith(s, "&lt;") then "<" + Unescape(s[4..])
    else if StartsWith(s, "&gt;") then ">" + Unescape(s[4..])
    else if StartsWith(s, "&quot;") then "\"" + Unescape(s[6..])
    else if StartsWith(s, "&#x27;") then "'" + Unescape(s[6..])
    else [s[0]] + Unescape(s[1..])
  }

  lemma Mismatch(s: string, prefix: string, i: nat)
    requires i < |prefix| && i < |s| && s[i] != prefix[i]
    ensures !StartsWith(s, prefix)
  {
    if |prefix| <= |s| {
      assert s[..|prefix|][i] != prefix[i];
    }
  }

  lemma UnescapeStep(c: char, quote: bool, rest: string)
    ensures Unescape(EscapeChar(c, quote) + rest) == [c] + Unescape(rest)
  {
    var e := EscapeChar(c, quote);
    var s := e + rest;
    assert s[..|e|] == e && s[|e|..] == rest;
    assert forall i :: 0 <= i < |e| ==> s[i] == e[i];
    if c == '&' {
      assert StartsWith(s, "&amp;");
    } else if c == '<' {
      Mismatch(s, "&amp;", 1);
      assert StartsWith(s, "&lt;");
    } else if c == '>' {
      Mismatch(s, "&amp;", 1);
      Mismatch(s, "&lt;", 1);
      assert StartsWith(s, "&gt;");
    } else if quote && c == '"' {
      Mismatch(s, "&amp;", 1);
      Mismatch(s, "&lt;", 1);
      Mismatch(s, "&gt;", 1);
      assert StartsWith(s, "&quot;");
    } else if quote && c == '\'' {
      Mismatch(s, "&amp;", 1);
      Mismatch(s, "&lt;", 1);
      Mismatch(s, "&gt;", 1);
      Mismatch(s, "&quot;", 1);
      assert StartsWith(s, "&#x27;");
    } else {
      assert e == [c] && s[0] == c && s[1..] == rest;
      Mismatch(s, "&amp;", 0);
      Mismatch(s, "&lt;", 0);
      Mismatch(s, "&gt;", 0);
      Mismatch(s, "&quot;", 0);
      Mismatch(s, "&#x27;", 0);
    }
  }

  /** Unescaping undoes escaping, so escaping loses no text. */
  lemma {:induction false} EscapeRoundTrip(s: string, quote: bool)
    ensures Unescape(Escape(s, quote)) == s
  {
    if |s| > 0 {
      UnescapeStep(s[0], quote, Escape(s[1..], quote));
      EscapeRoundTrip(s[1..], quote);
      assert [s[0]] + s[1..] == s;
    }
  }

  // ---------------------------------------------------------------------------
  // Serialisation
  // ---------------------------------------------------------------------------

  /** `" ".join(parts)`. */
  function JoinSpace(parts: seq<string>): string {
    if |parts| == 0 then ""
    else if |parts| == 1 then parts[0]
    else parts[0] + " " + JoinSpace(parts[1..])
  }

  /** `_render_attribute`: `key="escaped value"`, or the bare key for None. */
  function RenderAttribute(key: string, value: Option<string>): string {
    match value
    case Some(v) => key + "=\"" + Escape(v, true) + "\""
    case None => key
  }

  /** `_render_attributes_mapping`: the attributes in mapping order, space separated. */
  function RenderAttributes(attributes: Attributes): string {
    JoinSpace(seq(|attributes|, i requires 0 <= i < |attributes| =>
      RenderAttribute(attributes[i].0, attributes[i].1)))
  }

  function RenderNode(n: Node): string
    decreases n, 2
  {
    match n
    case Text(s) => Escape(s, false)
    case Child(e) => Render(e)
  }

  /** `_render_children`: text escaped without quoting, elements rendered as is. */
  function RenderChildren(children: seq<Node>): string
    decreases children, 0
  {
    if |children| == 0 then ""
    else RenderNode(children[0]) + RenderChildren(children[1..])
  }

  /** `Element.__str__`: a fragment is its children; an element without
      children closes itself; any other wraps its children in a start and an
      end tag.  Attributes, when they render to anything, follow the tag name
      after one space. */
  function Render(e: Element): (r: string)
    ensures e.tag == "" ==> r == RenderChildren(e.children)
    ensures e.tag != "" && |e.children| == 0 ==>
      r == if RenderAttributes(e.attributes) != "" then "<" + e.tag + " " + RenderAttributes(e.attributes) + " />"
           else "<" + e.tag + " />"
    ensures e.tag != "" && |e.children| > 0 && RenderAttributes(e.attributes) != "" ==>
      r == "<" + e.tag + " " + RenderAttributes(e.attributes) + ">" + RenderChildren(e.children) + "</" + e.tag + ">"
    ensures e.tag != "" && |e.children| > 0 && RenderAttributes(e.attributes) == "" ==>
      r == "<" + e.tag + ">" + RenderChildren(e.children) + "</" + e.tag + ">"
    decreases e, 1
  {
    if e.tag == "" then RenderChildren(e.children)
    else
      var attrs := RenderAttributes(e.attributes);
      var open := if attrs != "" then "<" + e.tag + " " + attrs else "<" + e.tag;
      if |e.children| == 0 then open + " />"
      else open + ">" + RenderChildren(e.children) + "</" + e.tag + ">"
  }

  /** Text inside an element is escaped between the tags: `<p>` then the
      text, which holds no `<` or `>`, then `</p>`. */
  lemma RenderText(tag: string, text: string)
    requires tag != ""
    ensures Render(Element(tag, [], [Text(text)])) == "<" + tag + ">" + Escape(text, false) + "</" + tag + ">"
  {
    assert [Text(text)][1..] == [];
    assert RenderChildren([Text(text)]) == Escape(text, false) + "";
    assert RenderAttributes([]) == "";
  }

  lemma {:induction false} RenderChildrenAppend(a: seq<Node>, b: seq<Node>)
    ensures RenderChildren(a + b) == RenderChildren(a) + RenderChildren(b)
  {
    if |a| == 0 {
      assert a + b == b;
    } else {
      assert (a + b)[0] == a[0];
      assert (a + b)[1..] == a[1..] + b;
      RenderChildrenAppend(a[1..], b);
    }
  }

  /** A fragment child renders exactly as its own children spliced in its place. */
  lemma FragmentTransparent(before: seq<Node>, inner: seq<Node>, after: seq<Node>)
    ensures RenderChildren(before + [Child(Fragment(inner))] + after)
         == RenderChildren(before + inner + after)
  {
    var x := Child(Fragment(inner));
    var rb, ri, ra := RenderChildren(before), RenderChildren(inner), RenderChildren(after);
    assert [x][1..] == [];
    assert RenderChildren([x]) == ri + "";
    RenderChildrenAppend(before + [x], after);
    RenderChildrenAppend(before, [x]);
    RenderChildrenAppend(before + inner, after);
    RenderChildrenAppend(before, inner);
    assert RenderChildren(before + [x] + after) == rb + (ri + "") + ra;
    assert RenderChildren(before + inner + after) == rb + ri + ra;
    assert ri + "" == ri;
  }
}
