# Template strings: a verified model of the pep750-examples core

This project models the example library that accompanies PEP 750 (template
strings). It covers:

- templates, built from the older tagged-string arguments by `t()`, and
  their concatenation;
- the f-string renderer `f`;
- lazy rendering with `format_some`;
- the reusable `Formatter`;
- structured-logging messages;
- the conversion of `str.format()` format strings into templates;
- the HTML engine `html()`, which builds an `Element` tree from a template.

The model is written in Dafny, and every property below is proved for all
inputs.

| module | file | models |
|---|---|---|
| `Wrappers` | wrappers.dfy | `Result`/`Option`; each Python exception becomes an `Error` with its class and message |
| `OrderedDict` | ordered_dict.dfy | Python's insertion-ordered `dict`: assignment, lookup, dict comprehensions |
| `Markup` | markup.dfy | `Element`, `html.escape`, `Element.__str__` and its render helpers |
| `Templates` | templates.dfy | `Interpolation`, `Template`, `t()`, `__add__`, `__radd__` |
| `FString` | fstring.dfy | `convert`, `f` |
| `Lazy` | lazy.dfy | `format_some` |
| `Reuse` | reuse.dfy | `Formatter` |
| `Logging` | logging.dfy | `TemplateMessage.message`, `.values` and `.data`, and the formatters' mappings |
| `LegacyFormat` | legacy_format.dfy | `_parse_fmt_string`, `from_format` |
| `Web` | web.dfy | `HTMLTemplateParser`, interpolation dispatch, components, `html()` |

A template is a sequence of parts. Each part is a literal string or an
interpolation. An interpolation value is one of the kinds the consumers tell
apart:

- a string;
- an attribute mapping;
- an `Element`;
- a nested template;
- a callable, named by an identifier;
- any other object.

Python's `format`, `repr`, `ascii` and `str` are not modelled. They are the
fields of a `Builtins` parameter, so every property holds whatever those
functions do. In the same way, three things become parameters:

- calling a lazy callable;
- the HTML tokenizer, as a state machine that turns fed text into handler
  events;
- the regular expression of the format-string parser, as the sequence of its
  matches, constrained to what the pattern guarantees.

## Model

Below, an element is "valid" when it passes `Element`'s own check: a
fragment carries no attributes. The check looks at the element itself, not
into its children.

| member | source | states |
|---|---|---|
| OrderedDict.Insert | pep/web.py:312 | `d[k] = v`: `k` then maps to `v`, every other key looks up as before, an existing key keeps its position, a new key is appended, distinct keys stay distinct |
| OrderedDict.GetUnique | pep/web.py:256-257 | in a dict with distinct keys, each stored key looks up its own value |
| OrderedDict.FromPairs | pep/web.py:173 | the dict comprehension over pairs has distinct keys, has a key exactly when some pair carries it, and maps it to the value of the last such pair; the keys come in the order of their first occurrence |
| OrderedDict.FromPairsUnique | pep/web.py:173 | pairs whose keys are already distinct come out of the comprehension unchanged, order included |
| Markup.MakeElement | pep/web.py:106-109 | construction succeeds exactly when the tag is non-empty or there are no attributes; otherwise ValueError |
| Markup.Fragment | pep/web.py:96-104 | `empty()`/`fragment()` build a valid element that renders as exactly its children |
| Markup.Append | pep/web.py:111-113 | a new element with the same tag and attributes, the old children unchanged and the new child last; validity is kept |
| Markup.Escape | pep/web.py:61-70 | escaped text holds no `<` or `>` (with quoting, no quotes either), text with nothing to escape is unchanged, and nothing gets shorter |
| Markup.EscapeRoundTrip | pep/web.py:242-244 | unescaping undoes escaping, so escaping loses no text |
| Markup.RenderChildrenAppend | pep/web.py:61-70 | rendering a concatenation of children is the concatenation of their renderings |
| Markup.Render | pep/web.py:115-134 | `str(element)`: a fragment renders as its children; an element without children is self-closing, `<tag attrs />` or `<tag />`; otherwise it is the start tag, with the rendered attributes after a space when there are any, the children, and the end tag |
| Markup.RenderText | pep/web.py:115-134 | an element holding one text child renders as its tags around the text escaped without quoting |
| Markup.FragmentTransparent | pep/web.py:115-119 | a fragment child renders exactly as its own children spliced in its place |
| Templates.Repair | pep/__init__.py:114-122 | the repaired conversion is always None/"a"/"r"/"s"; a recognised tag is kept with its spec, and any other text in `conv` becomes the format spec |
| Templates.RepairRecovers | pep/__init__.py:108-122 | the repair recovers the written conversion and spec exactly, except when there is no conversion and the spec is itself "a", "r" or "s" |
| Templates.Interleave | pep/__init__.py:81-132 | the loop of `t()` keeps at least one part per argument; its output is empty only for no arguments after a string |
| Templates.InterleaveInterpolations | pep/__init__.py:81-132 | the interpolations of the output are the interpolation arguments, repaired, in order |
| Templates.InterpolationsAll | pep/__init__.py:81-132 | a property holds of every interpolation part of a template exactly when it holds of every element of its interpolation sequence |
| Templates.InterleaveAlternates | pep/__init__.py:81-132 | arguments with no two strings side by side come out strictly alternating, literals at even positions, with odd length |
| Templates.InterleaveKeepsArguments | pep/__init__.py:81-132 | the loop only adds empty literals: without them its output is the arguments taken one to one |
| Templates.T | pep/__init__.py:73-137 | `t()` keeps its arguments in order, adding only empty literals; it succeeds with a well-formed template whenever no two strings are adjacent; its only failure is the parity AssertionError |
| Templates.TEmpty | pep/__init__.py:131-137 | `t""` is the single empty literal |
| Templates.TSingleInterpolation | pep/__init__.py:85-132 | `t"{42}"` is an empty literal, the interpolation, an empty literal |
| Templates.TAdjacentStrings | pep/__init__.py:131-135 | two adjacent string arguments leave an even count and fail the assertion |
| Templates.AddStr | pep/__init__.py:57-60 | `template + s` appends `s` to the last literal and changes nothing else; well-formedness is kept |
| Templates.RAddStr | pep/__init__.py:66-70 | `s + template` prefixes `s` to the first literal and changes nothing else; well-formedness is kept |
| Templates.AddTemplate | pep/__init__.py:63-64 | `a + b` merges the seam literals: one part fewer than both, `a`'s other parts then `b`'s, alternation kept |
| Templates.Plus | pep/__init__.py:57-64 | `+` between templates succeeds exactly when the seam parts are literals; an empty operand is an IndexError, a non-literal seam an AssertionError |
| Templates.PlusStr | pep/__init__.py:57-60 | `template + s` succeeds exactly when the last part is a literal; IndexError on an empty template, else AssertionError |
| Templates.StrPlus | pep/__init__.py:66-70 | `s + template` succeeds exactly when the first part is a literal; IndexError on an empty template, else AssertionError |
| Templates.TPlusSucceeds | pep/__init__.py:57-137 | templates made by `t()` can always be added to each other and to strings on either side |
| Templates.AddStrIsAddTemplate | pep/__init__.py:57-64 | adding a string is adding the one-literal template that holds it |
| Templates.RAddStrIsAddTemplate | pep/__init__.py:57-70 | prefixing a string is adding the one-literal template that holds it on the left |
| Templates.AddTemplateAssociative | pep/__init__.py:57-64 | template concatenation is associative |
| FString.Convert | pep/fstring.py:18-27 | "a", "r" and "s" select ascii, repr and str; None or any other tag returns the value unchanged |
| FString.ConvertStr | pep/fstring.py:18-27 | `convert` yields a string exactly when the value already is one or the conversion is "a", "r" or "s" |
| FString.RenderWith | pep/fstring.py:30-41 | the walk shared by the renderers succeeds exactly when every interpolation's piece does; on failure its error is that of the first piece to fail |
| FString.F | pep/fstring.py:30-41 | `f` succeeds exactly when every interpolation formats; on failure the error is that of the first interpolation that fails |
| FString.RenderWithAppend | pep/fstring.py:30-41 | rendering a concatenation is the first rendering followed by the second, the first error winning |
| FString.RenderWithDropEmpty | pep/fstring.py:33-36 | empty literals contribute nothing to a rendering |
| FString.FLiterals | pep/fstring.py:33-36 | a template without interpolations renders to its literals joined |
| FString.FOfT | pep/fstring.py:30-41 | `f(t(args))` renders the arguments one to one: the empty literals `t()` inserts change nothing |
| FString.FAddStr | pep/__init__.py:57-60 | `f(template + s) == f(template) + s` |
| FString.FRAddStr | pep/__init__.py:66-70 | `f(s + template) == s + f(template)` |
| FString.FAddTemplate | pep/__init__.py:57-64 | `f(a + b) == f(a) + f(b)`, the first error winning |
| Lazy.Collect | pep/lazy.py:12-24 | the loop fails with ValueError exactly when some interpolation is not callable, and then the error names the first non-callable value and the calls made are the selected callables before it; otherwise each value is its part's, and the calls made are exactly the selected callables, in order |
| Lazy.Step | pep/lazy.py:14-24 | a literal is kept as is; a non-callable interpolation is the ValueError "Non-callable interpolation: " with its value; a selected callable is called once and gives its result under the interpolation's conversion; any other interpolation reads as the placeholder without a call |
| Lazy.Join | pep/lazy.py:25 | `"".join` succeeds exactly when every part is a string; otherwise the TypeError (its message is fixed, see Left out) |
| Lazy.JoinOne | pep/lazy.py:25 | joining one string gives that string |
| Lazy.JoinAppend | pep/lazy.py:25 | joining a concatenation is the first join followed by the second, the first error winning; with `JoinOne` this makes the join the concatenation of the parts |
| Lazy.FormatSome | pep/lazy.py:7-25 | `format_some` raises ValueError exactly when some interpolation is not callable, naming the first non-callable value after calling the selected callables before it; otherwise it calls exactly the selected callables, and its text is the literals, each selected callable's converted result and the placeholder for the others, in order; it succeeds exactly when every selected callable's converted result is a string, and otherwise raises the TypeError |
| Lazy.LazyRendering | pep/lazy.py:12-25 | collecting and then joining is rendering piece by piece: each selected callable gives its converted string, each other interpolation the placeholder |
| Lazy.CollectJoin | pep/lazy.py:12-25 | on an all-callable template, the join of the collected parts equals the piece-by-piece rendering |
| Lazy.CollectLazy | pep/lazy.py:19-23 | the loop's outcome depends on a callable only if that callable is selected |
| Lazy.FormatSomeLazy | pep/lazy.py:7-25 | two call functions that agree on the selected callables give the same result |
| Lazy.NothingSelected | pep/lazy.py:19-24 | with nothing selected nothing is called, and every interpolation reads as the placeholder |
| Lazy.CheeseBlue | pep/test_lazy.py:5-7 | selecting "blue" gives "roquefort ***" and calls only the first callable |
| Lazy.CheeseStinky | pep/test_lazy.py:5-8 | selecting "stinky" gives "*** limburger" and calls only the second callable |
| Lazy.NonCallableAfterCall | pep/lazy.py:12-21 | `format_some("blue", t"{f:blue}{42}")` calls `f` and then raises the ValueError naming 42 |
| Reuse.NewFormatter | pep/reuse.py:15-20 | `Formatter(template)` succeeds exactly when every interpolation holds a name; otherwise ValueError naming the first value that is not a string |
| Reuse.Lookup | pep/reuse.py:28-31 | a name the keyword arguments do not bind is a KeyError naming it; a bound one renders as `f` renders the interpolation with the bound value in place; a value that is not a name fails the AssertionError |
| Reuse.Format | pep/reuse.py:22-33 | a successful `format` implies every interpolation holds a name and every name is bound |
| Reuse.FormatIsF | pep/reuse.py:22-33 | with every name bound, `format(**kwargs)` is `f` of the template with the bound values in place |
| Reuse.FormatIgnoresUnused | pep/reuse.py:29 | keyword arguments the template does not name change nothing |
| Reuse.MissingName | pep/reuse.py:29 | an unbound name, at the first interpolation to fail, gives KeyError with that name |
| Logging.Values | pep/logging.py:36-42 | `values` has distinct keys: exactly the interpolations' expressions, each mapped to the value of its last occurrence, in the order of their first occurrence |
| Logging.Message | pep/logging.py:32-34 | the message succeeds exactly when every interpolation that `values` is built from formats, and otherwise fails with the error of the first one that does not |
| Logging.Data | pep/logging.py:44-46 | `data` succeeds exactly when `f` does; it has the keys "message" and "values" in that order, holding `f`'s text and `values` |
| Logging.ValuesLastWins | pep/logging.py:38-42 | a repeated expression maps to the value of its last occurrence |
| Logging.HelloData | pep/test_logging.py:15-22 | `t"Hello, {name}!"` with name "world" gives message "Hello, world!" and values `{"name": "world"}` |
| LegacyFormat.NatToStringValue | pep/format.py:104 | `int` of the decimal text of `n` is `n`, so "args[i]" names the index it was built from |
| LegacyFormat.Classify | pep/format.py:86-108 | an empty key takes the next automatic index, unless numbering is manual; a digit key is its own index, unless numbering is automatic; any other key is a name; mixing modes is a ValueError |
| LegacyFormat.CheckMatch | pep/format.py:57-74 | a field passes its checks exactly when its conversion is valid, its spec is not a nested field and its key has no "!"; a nested spec after a valid conversion is NotImplementedError, every other failure ValueError |
| LegacyFormat.FieldOf | pep/format.py:57-111 | a field is parsed exactly when it passes its checks and its key can be classified; checks come before numbering errors, and a field that passes them fails only with the mixed-numbering ValueError; an empty key advances the automatic counter |
| LegacyFormat.ParseFrom | pep/format.py:38-119 | the parsing loop fails only with ValueError or NotImplementedError |
| LegacyFormat.ParseFmt | pep/format.py:20-119 | `_parse_fmt_string` succeeds exactly when every match yields a field in the numbering state the matches before it leave; otherwise it raises the error of the first match that does not |
| LegacyFormat.ParseError | pep/format.py:38-111 | from any position and numbering state, the loop fails exactly when some match fails, with the error of the first one |
| LegacyFormat.AutoThenManual | pep/test_format.py:77-79 | "{}{1}" raises the mixed-numbering ValueError |
| LegacyFormat.UnknownConversionInKey | pep/test_format.py:87-89 | "{name!z}" raises ValueError naming the conversion "z" |
| LegacyFormat.NestedSpecRefused | pep/test_format.py:128-131 | "{name:{fmt}}" raises NotImplementedError |
| LegacyFormat.ParseSucceeds | pep/format.py:38-119 | parsing succeeds exactly when every field passes its checks and automatic and manual numbering are not mixed |
| LegacyFormat.CompatibleStep | pep/format.py:86-105 | the numbering mode after one field and the remaining keys are compatible exactly when the mode before it and all keys are |
| LegacyFormat.ParseFields | pep/format.py:86-111 | the parsed fields correspond one to one, in order, to the matches: index, name, spec and conversion as each key and group dictate |
| LegacyFormat.FieldsForIndexed | pep/format.py:93-95 | field `i` takes as automatic index the count of empty keys before it |
| LegacyFormat.FieldsForAuto | pep/format.py:86-96 | with only empty keys, the fields are numbered 0, 1, 2, ... |
| LegacyFormat.ParseStaticsNonEmpty | pep/format.py:42-78 | the parser never emits an empty static part |
| LegacyFormat.ParseRoundTrip | pep/format.py:33-119 | nothing of the format string is lost: the static parts, with each field written back as its text, are the format string |
| LegacyFormat.Resolve | pep/format.py:147-168 | a static part stays a literal; an indexed field needs an index below the argument count (else IndexError) and becomes `args[i]`; a named field needs the keyword (else KeyError) and becomes `kwargs[repr(key)]` |
| LegacyFormat.MapAll | pep/format.py:145-168 | applying a fallible step to each element in order succeeds exactly when every step does, one result per element; otherwise the error is that of the first step to fail |
| LegacyFormat.ResolveAll | pep/format.py:145-168 | every part resolves in order, one to one; on failure the error is that of the first part that does not resolve |
| LegacyFormat.FromFormat | pep/format.py:122-169 | `from_format` succeeds exactly when parsing succeeds and every part resolves; argument `i` is parsed part `i` resolved; a parse error is raised as is, and otherwise the error is that of the first part that does not resolve |
| LegacyFormat.FromFormatPositional | pep/format.py:122-169 | with only "{}" fields and one argument each, the interpolations carry the arguments in order as "args[0]", "args[1]", ... |
| LegacyFormat.PositionalParse | pep/format.py:86-96 | with only "{}" fields that pass their checks, parsing succeeds and numbers the fields 0, 1, 2, ... |
| LegacyFormat.ResolvePositional | pep/format.py:151-158 | fields numbered 0, 1, 2, ... resolve against as many arguments to interpolations of those arguments, in order |
| Web.Strip | pep/web.py:190 | the stripped text starts and ends with a character that is not whitespace in the sense of Python's `str.isspace`, and is no longer than the data |
| Web.StripSeparators | pep/web.py:187-195 | the information separators \x1c to \x1f are whitespace: data made only of them is ignored |
| Web.StripSlice | pep/web.py:190 | strip keeps one slice of the data and removes only whitespace around it |
| Web.HandleStartTag | pep/web.py:169-176 | a start tag after the root is closed is a "Multiple root elements" error; otherwise it pushes the new element, with attributes from the comprehension, and leaves the start tag |
| Web.HandleEndTag | pep/web.py:178-185 | an end tag succeeds exactly when it matches the innermost open element; an empty stack is an IndexError; the closed element becomes the root or the last child of its parent |
| Web.HandleData | pep/web.py:187-195 | whitespace-only data is ignored; other data, stripped, becomes the last child of the innermost element, or is an error outside the root |
| Web.Handle | pep/web.py:169-202 | every handler keeps the builder invariant: a root only when no element is open, and the root and every open element valid |
| Web.HandleAll | pep/web.py:169-202 | a sequence of handler calls keeps the builder invariant |
| Web.BuildElement | pep/web.py:169-185 | an element's events, fed above any stack, close it onto the element below, or make it the root |
| Web.BuildRoundTrip | pep/web.py:163-195 | the events of any tree with non-empty tags, distinct attribute names and stripped text build that same tree |
| Web.StartTagValue | pep/web.py:210-225 | in a start tag, a mapping renders as attributes and a string as a quoted escaped value; anything else is an HTMLParseError |
| Web.StartTagStrQuoted | pep/web.py:219-224 | a string in a start tag becomes exactly one double-quoted value with no quote inside, which unescapes to the string |
| Web.ContentValue | pep/web.py:228-247 | in content, an element renders as itself, a template as the element `html` makes of it, a string escaped without quotes; anything else is an HTMLParseError |
| Web.ContentStrInert | pep/web.py:242-244 | a string in content becomes text with no `<` or `>`, which unescapes to the string, so it cannot open or close a tag |
| Web.InvokeComponents | pep/web.py:250-259 | children are resolved first; an element whose tag is registered is replaced by its component's result, and any other keeps its tag and attributes; a valid element stays valid when every component returns a valid element |
| Web.InvokeChildren | pep/web.py:252-255 | text children are kept and element children are resolved, one to one |
| Web.NoComponents | pep/web.py:250-259 | with no registered component the tree is unchanged |
| Web.Step | pep/web.py:298-316 | a value that the start-tag or content processing rejects aborts with that error; a callable in content is registered under its generated name, and nothing else changes the registrations; the builder invariant is kept |
| Web.Run | pep/web.py:297-316 | processing a template keeps every registration and the builder invariant; a first part that fails aborts with its error |
| Web.RunFirstFailure | pep/web.py:297-316 | a template that fails, fails at its first failing part: the parts before it succeed, and the error is that part's |
| Web.RunWithoutCallables | pep/web.py:306-312 | parts with no callable among their interpolations register no component |
| Web.Html | pep/web.py:278-320 | a failing loop or `close()` fails `html()` with its error; no root is the HTMLParseError "No root element"; otherwise the result is the root with the registered components invoked; a successful result is valid when every component returns a valid element |
| Web.HtmlWithoutCallables | pep/web.py:306-320 | without a callable in the template, `html()` returns the root the parser built, unchanged |
| Web.HtmlOneLiteral | pep/web.py:289-320 | a one-literal template feeds the literal, closes the parser, then needs a root |
| Web.HtmlOfLiteral | pep/web.py:278-320 | a literal whose tokens are those of a buildable element makes `html` return that element |
| Web.HtmlNoRoot | pep/web.py:317-319 | text that yields no tokens gives "No root element" |

## Left out

- pep/aformat.py and pep/afstring.py (asynchronous variants) are not part of this model.
- `_DebugParser` (pep/__init__.py:145-167) only prints, and the `print(arg)` in `t()` is output only.
- The standard-library `HTMLParser` tokenizer is a parameter. The calls it makes (including `handle_startendtag`, which falls back to start and end, and the flushing done by `close`) are whatever events it reports. `TagOpen` stands for the `parse_starttag` hook.
- The regular expression of `_parse_fmt_string` is not implemented. Its matches are an input, constrained by `Matches`/`Ordered` to lie in order inside the string and to spell their groups.
- Python's `format`, `repr`, `ascii`, `str`, the lazy callables, component functions and `_make_component_name`'s slug cleaning are parameters, not definitions.
- Error messages that interpolate a Python type (`type(value)`) use a fixed type name per value kind.
- The JSON encoders, `__str__` of `TemplateMessage`, `make_template_message` and the formatters' `format` methods (logging plumbing) are not modelled; the model stops at the mappings they encode.
- Iteration over a `string.templatelib.Template` (pep/web.py:297, pep/logging.py:40) skips empty strings. The model iterates all parts; the renderings are unaffected (`FString.RenderWithDropEmpty`), and `html()` differs only if the tokenizer reacts to empty input.
- The canonicalising `Template(*args)` constructor of `string.templatelib` used by pep/format.py is not part of this model: `LegacyFormat.FromFormat` returns the argument sequence it would be given.
- `str.isdigit` is modelled over ASCII digits; other Unicode digits are not modelled. `str.strip` follows `str.isspace`: the ASCII controls \t to \r and \x1c to \x1f, the space, and the Unicode spaces and separators.
- Templates.T: `t()` also succeeds, with a non-alternating template, on adjacent string arguments that happen to leave an odd count. The contract states well-formedness only when no two strings are adjacent, which is what the tagged-string call produces.
- Web.Step: what the fed text does is left to the abstract tokenizer; the contract states the errors of the interpolation processing, the registrations and the builder invariant.
- Lazy.Join: the TypeError of `"".join` carries the fixed message "sequence item: expected str instance". CPython's message also names the item's index and its type ("sequence item 1: expected str instance, int found"); neither is modelled, so only the error class is faithful.
- Lazy.Collect: the lazy callables are total functions from an identifier to a value. A callable that raises, whose exception would propagate out of `format_some`, is not modelled.
- Web.InvokeComponents: component functions are total functions returning an `Element`. A component that raises, or returns something else, is not modelled.
- Reuse.Format: states only what success implies; the value on success is given by `Reuse.FormatIsF`.
