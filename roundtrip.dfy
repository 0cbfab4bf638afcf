/** Round trips between the two forms of a question in static/script.js.

    A question in the flat form is plain text, then any number of mentions
    `[name]` each followed by plain text. Plain text has no bracket and no
    `<`; a name has no bracket, no `<` and no line terminator. For such a
    question `putTextIntoSpans` and `putTextIntoSpansInput` wrap every plain
    run in a plain span and every mention in an entity span (the `i`-th one
    numbered `i` in the input field), `removeHtmlInputField` gives the
    question back, and `getEntityNames` lists the names in order. */
module RoundTrip {
  import opened Strings
  import opened Regex
  import opened Markup

  /** A mention and the plain text after it. */
  datatype Part = Part(name: string, after: string)

  const Unsafe: set<char> := {'[', ']', '<'}

  predicate PlainRun(s: string)
  {
    NoneOf(s, Unsafe)
  }

  predicate MentionName(s: string)
  {
    NoneOf(s, Unsafe + JsLineTerminators)
  }

  predicate CleanParts(ps: seq<Part>)
  {
    forall i :: 0 <= i < |ps| ==> MentionName(ps[i].name) && PlainRun(ps[i].after)
  }

  /** The flat form: `first[name0]after0[name1]after1…`. */
  function Mentions(ps: seq<Part>): string
    decreases |ps|
  {
    if ps == [] then [] else "[" + Between(ps)
  }

  /** The flat form after a mention's `[`. */
  function Between(ps: seq<Part>): string
    requires ps != []
    decreases |ps|, 0
  {
    ps[0].name + ("]" + (ps[0].after + Mentions(ps[1..])))
  }

  function Flat(first: string, ps: seq<Part>): string
  {
    first + Mentions(ps)
  }

  function Names(ps: seq<Part>): seq<string>
    decreases |ps|
  {
    if ps == [] then [] else [ps[0].name] + Names(ps[1..])
  }

  /** A plain run in a plain span. */
  function Span(a: string): string
  {
    PlainOpen + (a + CloseTag)
  }

  // ---------------------------------------------------------------------
  // The two replacements that wrap plain runs
  // ---------------------------------------------------------------------

  /** After the first replacement, from the first name on: every run
      between two mentions is wrapped, the last one not yet. */
  function WrappedBetween(ps: seq<Part>): string
    requires ps != []
    decreases |ps|
  {
    ps[0].name + ("]" + (if |ps| == 1 then ps[0].after else Span(ps[0].after) + ("[" + WrappedBetween(ps[1..]))))
  }

  function AfterFirstReplace(first: string, ps: seq<Part>): string
  {
    if ps == [] then first else Span(first) + ("[" + WrappedBetween(ps))
  }

  /** After both replacements: every plain run is in a plain span, the
      mentions are still in brackets. */
  function Bracketed(ps: seq<Part>): string
    decreases |ps|
  {
    if ps == [] then [] else "[" + BracketedBetween(ps)
  }

  function BracketedBetween(ps: seq<Part>): string
    requires ps != []
    decreases |ps|, 0
  {
    ps[0].name + ("]" + (Span(ps[0].after) + Bracketed(ps[1..])))
  }

  function Wrapped(first: string, ps: seq<Part>): string
  {
    Span(first) + Bracketed(ps)
  }

  lemma SpanClean(a: string, cs: set<char>)
    requires NoneOf(a, cs) && NoneOf(PlainOpen, cs) && NoneOf(CloseTag, cs)
    ensures NoneOf(Span(a), cs)
  {
    NoneOfAppend(a, CloseTag, cs);
    NoneOfAppend(PlainOpen, a + CloseTag, cs);
  }

  lemma BeforeOpenSkips(x: string, y: string)
    requires NoneOf(x, {']'})
    ensures NoMatchIn(SpanBeforeOpen, x, y, false)
  {
    forall i | 0 <= i < |x| ensures SpanBeforeOpen(x[i..] + y, false).None? {
      assert (x[i..] + y)[0] == x[i];
    }
  }

  lemma AtEndSkips(x: string, y: string)
    requires NoneOf(x, {']'})
    ensures NoMatchIn(SpanAtEnd, x, y, false)
  {
    forall i | 0 <= i < |x| ensures SpanAtEnd(x[i..] + y, false).None? {
      assert (x[i..] + y)[0] == x[i];
    }
  }

  lemma BeforeOpenMatchClose(a: string, z: string)
    requires NoneOf(a, Brackets)
    ensures SpanBeforeOpen("]" + a + "[" + z, false) == Some(Match(|a| + 2, "]" + PlainOpen + a + CloseTag + "["))
  {
    var s := "]" + a + "[" + z;
    assert s[1..] == a + ("[" + z);
    FirstOfAfterClean(a, "[" + z, Brackets);
    assert s[1..1 + |a|] == a;
  }

  lemma BeforeOpenStepClose(a: string, z: string)
    requires NoneOf(a, Brackets)
    ensures RewriteAll(SpanBeforeOpen, "]" + a + "[" + z, false)
            == "]" + PlainOpen + a + CloseTag + "[" + RewriteAll(SpanBeforeOpen, z, false)
  {
    BeforeOpenMatchClose(a, z);
    RewriteAllStep(SpanBeforeOpen, "]" + a + "[", z, false, "]" + PlainOpen + a + CloseTag + "[");
  }

  lemma CloseShape(a: string, r: string)
    ensures "]" + PlainOpen + a + CloseTag + "[" + r == "]" + (Span(a) + ("[" + r))
    ensures "]" + a + "[" + r == "]" + (a + ("[" + r))
  {
    Regroup(a, r, "]", "[");
    Regroup(a, r, "]" + PlainOpen, CloseTag + "[");
    assert "]" + PlainOpen + a + CloseTag + "[" == ("]" + PlainOpen) + a + (CloseTag + "[");
  }

  /** `(\]|^)([^\[\]]*?)(\[)` at a `]` that a plain run and a `[` follow. */
  lemma BeforeOpenAtClose(a: string, z: string)
    requires NoneOf(a, Brackets)
    ensures RewriteAll(SpanBeforeOpen, "]" + (a + ("[" + z)), false)
            == "]" + (Span(a) + ("[" + RewriteAll(SpanBeforeOpen, z, false)))
  {
    BeforeOpenStepClose(a, z);
    CloseShape(a, z);
    CloseShape(a, RewriteAll(SpanBeforeOpen, z, false));
  }

  lemma BeforeOpenMatchStart(first: string, z: string)
    requires NoneOf(first, Brackets)
    ensures SpanBeforeOpen(first + "[" + z, true) == Some(Match(|first| + 1, PlainOpen + first + CloseTag + "["))
  {
    var s := first + "[" + z;
    assert s == first + ("[" + z);
    FirstOfAfterClean(first, "[" + z, Brackets);
    assert s[..|first|] == first;
  }

  lemma BeforeOpenStepStart(first: string, z: string)
    requires NoneOf(first, Brackets)
    ensures RewriteAll(SpanBeforeOpen, first + "[" + z, true)
            == PlainOpen + first + CloseTag + "[" + RewriteAll(SpanBeforeOpen, z, false)
  {
    BeforeOpenMatchStart(first, z);
    RewriteAllStep(SpanBeforeOpen, first + "[", z, true, PlainOpen + first + CloseTag + "[");
  }

  lemma StartShape(first: string, r: string)
    ensures PlainOpen + first + CloseTag + "[" + r == Span(first) + ("[" + r)
    ensures first + "[" + r == first + ("[" + r)
  {
    Regroup(first, r, PlainOpen, CloseTag + "[");
    assert PlainOpen + first + CloseTag + "[" == PlainOpen + first + (CloseTag + "[");
  }

  /** The same pattern at the start of the text. */
  lemma BeforeOpenAtStart(first: string, z: string)
    requires NoneOf(first, Brackets)
    ensures RewriteAll(SpanBeforeOpen, first + ("[" + z), true)
            == Span(first) + ("[" + RewriteAll(SpanBeforeOpen, z, false))
  {
    BeforeOpenStepStart(first, z);
    StartShape(first, z);
    StartShape(first, RewriteAll(SpanBeforeOpen, z, false));
  }

  /** No `[` after the last `]`: the first pattern leaves the rest alone. */
  lemma BeforeOpenAtLast(a: string)
    requires NoneOf(a, Brackets)
    ensures RewriteAll(SpanBeforeOpen, "]" + a, false) == "]" + a
  {
    assert ("]" + a)[1..] == a;
    assert "]" + a == [']'] + a;
    RewriteAllSkip(SpanBeforeOpen, ']', a, false);
    BeforeOpenSkips(a, []);
    RewriteAllNoMatch(SpanBeforeOpen, a, false);
  }

  /** `(\]|^)([^\[\]]*?)($)` at the last `]`. */
  lemma AtEndAtLast(a: string)
    requires NoneOf(a, Brackets)
    ensures RewriteAll(SpanAtEnd, "]" + a, false) == "]" + Span(a)
  {
    var s := "]" + a;
    assert s[1..] == a;
    assert s + [] == s;
    RewriteAllStep(SpanAtEnd, s, [], false, "]" + PlainOpen + a + CloseTag);
    assert "]" + PlainOpen + a + CloseTag + [] == "]" + Span(a);
  }

  /** The same pattern on a text without brackets, from its start. */
  lemma AtEndWhole(first: string)
    requires NoneOf(first, Brackets)
    ensures RewriteAll(SpanAtEnd, first, true) == Span(first)
  {
    if first == [] {
      assert PlainOpen + first + CloseTag == Span(first);
    } else {
      assert first + [] == first;
      RewriteAllStep(SpanAtEnd, first, [], true, PlainOpen + first + CloseTag);
      assert PlainOpen + first + CloseTag + [] == Span(first);
    }
  }

  /** The second pattern matches nowhere in a `]`-free text that ends in `[`. */
  lemma AtEndNoMatchTo(x: string, t: string, atStart: bool)
    requires NoneOf(x, {']'}) && |x| > 0 && x[|x| - 1] == '['
    ensures NoMatchIn(SpanAtEnd, x, t, atStart)
  {
    forall i | 0 <= i < |x| ensures SpanAtEnd(x[i..] + t, atStart && i == 0).None? {
      var s := x[i..] + t;
      assert s[0] == x[i];
      assert s[|x| - 1 - i] == '[';
    }
  }

  lemma SpanThenOpen(a: string)
    requires NoneOf(a, {']'})
    ensures NoneOf(Span(a) + "[", {']'}) && |Span(a) + "["| > 0 && (Span(a) + "[")[|Span(a) + "["| - 1] == '['
  {
    SpanClean(a, {']'});
    NoneOfAppend(Span(a), "[", {']'});
  }

  /** The second pattern copies a wrapped run and a `[`. */
  lemma AtEndPastOpen(a: string, t: string, atStart: bool)
    requires NoneOf(a, {']'})
    ensures RewriteAll(SpanAtEnd, Span(a) + ("[" + t), atStart)
            == Span(a) + ("[" + RewriteAll(SpanAtEnd, t, false))
  {
    var x := Span(a) + "[";
    SpanThenOpen(a);
    AtEndNoMatchTo(x, t, atStart);
    RewriteAllCopy(SpanAtEnd, x, t, atStart);
    var r := RewriteAll(SpanAtEnd, t, false);
    assert x + t == Span(a) + ("[" + t);
    assert x + r == Span(a) + ("[" + r);
  }

  /** The second pattern copies a `]`, a wrapped run and a `[`. */
  lemma AtEndPastSpan(a: string, t: string)
    requires NoneOf(a, {']'})
    ensures RewriteAll(SpanAtEnd, "]" + (Span(a) + ("[" + t)), false)
            == "]" + (Span(a) + ("[" + RewriteAll(SpanAtEnd, t, false)))
  {
    var w := Span(a) + ("[" + t);
    assert "]" + w == [']'] + w;
    SpanThenOpen(a);
    assert w[|Span(a)|] == '[';
    RewriteAllSkip(SpanAtEnd, ']', w, false);
    AtEndPastOpen(a, t, false);
  }

  lemma CleanHead(ps: seq<Part>)
    requires ps != [] && CleanParts(ps)
    ensures NoneOf(ps[0].name, {']'}) && NoneOf(ps[0].name, {'['}) && NoneOf(ps[0].name, {'<'})
    ensures NoneOf(ps[0].name, {']'} + JsLineTerminators)
    ensures NoneOf(ps[0].after, Brackets) && NoneOf(ps[0].after, {']'}) && NoneOf(ps[0].after, {'['})
    ensures NoneOf(ps[0].after, {'<'}) && CleanParts(ps[1..])
  {
    assert MentionName(ps[0].name) && PlainRun(ps[0].after);
    forall i | 0 <= i < |ps[1..]| ensures MentionName(ps[1..][i].name) && PlainRun(ps[1..][i].after) {
      assert ps[1..][i] == ps[i + 1];
    }
  }

  /** The first replacement on the text after the first `[`. */
  lemma {:induction false} FirstReplaceBetween(ps: seq<Part>)
    requires ps != [] && CleanParts(ps)
    ensures RewriteAll(SpanBeforeOpen, Between(ps), false) == WrappedBetween(ps)
    decreases |ps|
  {
    var m, a, rest := ps[0].name, ps[0].after, ps[1..];
    CleanHead(ps);
    var y := "]" + (a + Mentions(rest));
    BeforeOpenSkips(m, y);
    RewriteAllCopy(SpanBeforeOpen, m, y, false);
    if rest == [] {
      assert a + Mentions(rest) == a;
      BeforeOpenAtLast(a);
    } else {
      BeforeOpenAtClose(a, Between(rest));
      FirstReplaceBetween(rest);
    }
  }

  lemma FirstReplace(first: string, ps: seq<Part>)
    requires PlainRun(first) && CleanParts(ps)
    ensures RewriteAll(SpanBeforeOpen, Flat(first, ps), true) == AfterFirstReplace(first, ps)
  {
    assert NoneOf(first, Brackets);
    if ps == [] {
      assert Flat(first, ps) == first;
      forall i | 0 <= i < |first| ensures SpanBeforeOpen(first[i..] + [], true && i == 0).None? {
        assert (first[i..] + [])[0] == first[i];
        assert NoneOf(first[i..] + [], Brackets);
      }
      RewriteAllNoMatch(SpanBeforeOpen, first, true);
    } else {
      BeforeOpenAtStart(first, Between(ps));
      FirstReplaceBetween(ps);
    }
  }

  /** The second replacement on the text from the first name on. */
  lemma {:induction false} SecondReplaceBetween(ps: seq<Part>)
    requires ps != [] && CleanParts(ps)
    ensures RewriteAll(SpanAtEnd, WrappedBetween(ps), false) == BracketedBetween(ps)
    decreases |ps|
  {
    var m, a, rest := ps[0].name, ps[0].after, ps[1..];
    CleanHead(ps);
    if rest == [] {
      AtEndSkips(m, "]" + a);
      RewriteAllCopy(SpanAtEnd, m, "]" + a, false);
      AtEndAtLast(a);
      assert Span(a) + Bracketed(rest) == Span(a);
    } else {
      var y := "]" + (Span(a) + ("[" + WrappedBetween(rest)));
      AtEndSkips(m, y);
      RewriteAllCopy(SpanAtEnd, m, y, false);
      AtEndPastSpan(a, WrappedBetween(rest));
      SecondReplaceBetween(rest);
    }
  }

  /** The two wrapping replacements give the wrapped form. */
  lemma WrapPlainRunsFlat(first: string, ps: seq<Part>)
    requires PlainRun(first) && CleanParts(ps)
    ensures WrapPlainRuns(Flat(first, ps)) == Wrapped(first, ps)
  {
    FirstReplace(first, ps);
    assert NoneOf(first, Brackets);
    if ps == [] {
      AtEndWhole(first);
      assert Span(first) + [] == Span(first);
    } else {
      AtEndPastOpen(first, WrappedBetween(ps), true);
      SecondReplaceBetween(ps);
    }
  }

  // ---------------------------------------------------------------------
  // Entity spans
  // ---------------------------------------------------------------------

  /** The attributes of the `k`-th entity span: none in a completion button,
      the tooltip handlers in the input field. */
  function Attrs(input: bool, k: nat): string
  {
    if input then InputEntityAttrs(k) else []
  }

  function Tag(input: bool, k: nat): string
  {
    EntityOpenPrefix + (Attrs(input, k) + ">")
  }

  lemma TagIs(input: bool, k: nat)
    ensures Tag(input, k) == if input then InputEntityOpen(k) else EntityOpen
  {
    if !input {
      assert Attrs(input, k) + ">" == ">";
    }
  }

  lemma AttrsClean(input: bool, k: nat)
    ensures NoneOf(Attrs(input, k), TagFree)
    ensures NoneOf(Attrs(input, k) + ">", Brackets) && NoneOf(Attrs(input, k) + ">", {'<'})
    ensures NoneOf(Attrs(input, k), {'>'}) && NoneOf(Attrs(input, k), {'<'})
  {
    if input { InputEntityAttrsClean(k); }
    NoneOfSubset(Attrs(input, k), TagFree, Brackets);
    NoneOfSubset(Attrs(input, k), TagFree, {'<'});
    NoneOfSubset(Attrs(input, k), TagFree, {'>'});
    NoneOfAppend(Attrs(input, k), ">", Brackets);
    NoneOfAppend(Attrs(input, k), ">", {'<'});
  }

  lemma TagClean(input: bool, k: nat)
    ensures NoneOf(Tag(input, k), Brackets) && NoneOf(Tag(input, k)[1..], {'<'})
  {
    TagBrackets(input, k);
    TagTail(input, k);
  }

  lemma TagBrackets(input: bool, k: nat)
    ensures NoneOf(Tag(input, k), Brackets)
  {
    AttrsClean(input, k);
    assert NoneOf(EntityOpenPrefix, Brackets);
    NoneOfAppend(EntityOpenPrefix, Attrs(input, k) + ">", Brackets);
  }

  lemma TagTail(input: bool, k: nat)
    ensures NoneOf(Tag(input, k)[1..], {'<'})
  {
    AttrsClean(input, k);
    EntityOpenPrefixClean();
    TailClean(EntityOpenPrefix, Attrs(input, k) + ">", {'<'});
  }

  lemma TailClean(p: string, t: string, cs: set<char>)
    requires |p| > 0 && NoneOf(p[1..], cs) && NoneOf(t, cs)
    ensures NoneOf((p + t)[1..], cs)
  {
    assert (p + t)[1..] == p[1..] + t;
    NoneOfAppend(p[1..], t, cs);
  }

  lemma TagShape(input: bool, k: nat)
    ensures |Tag(input, k)| > 20 && Tag(input, k)[0] == '<' && Tag(input, k)[5] == ' '
    ensures Tag(input, k)[..|EntityOpenPrefix|] == EntityOpenPrefix
  {
    EntityOpenPrefixClean();
    assert EntityOpenPrefix[5] == ' ';
  }

  /** The marked-up form: the first run in a plain span, then each mention
      in an entity span (numbered from `k`) followed by its run in a plain
      span. */
  function EntitySpans(ps: seq<Part>, input: bool, k: nat): string
    decreases |ps|
  {
    if ps == [] then []
    else Tag(input, k) + (ps[0].name + (CloseTag + (Span(ps[0].after) + EntitySpans(ps[1..], input, k + 1))))
  }

  function Marked(first: string, ps: seq<Part>, input: bool): string
  {
    Span(first) + EntitySpans(ps, input, 0)
  }

  // ---------------------------------------------------------------------
  // The third replacement of putTextIntoSpans
  // ---------------------------------------------------------------------

  lemma MentionMatch(name: string, t: string, atStart: bool)
    requires NoneOf(name, {']'} + JsLineTerminators)
    ensures MentionToEntitySpan("[" + name + "]" + t, atStart) == Some(Match(|name| + 2, EntityOpen + name + CloseTag))
    ensures MentionText("[" + name + "]" + t, atStart) == Some(Match(|name| + 2, name))
  {
    var s := "[" + name + "]" + t;
    assert s[1..] == name + ("]" + t);
    FirstOfAfterClean(name, "]" + t, {']'} + JsLineTerminators);
    assert s[1..1 + |name|] == name;
  }

  /** `/\[(.*?)\]/g` at a mention. */
  lemma MentionStep(name: string, t: string)
    requires NoneOf(name, {']'} + JsLineTerminators)
    ensures RewriteAll(MentionToEntitySpan, "[" + (name + ("]" + t)), false)
            == EntityOpen + (name + (CloseTag + RewriteAll(MentionToEntitySpan, t, false)))
  {
    MentionMatch(name, t, false);
    RewriteAllStep(MentionToEntitySpan, "[" + name + "]", t, false, EntityOpen + name + CloseTag);
    var r := RewriteAll(MentionToEntitySpan, t, false);
    Regroup(name, t, "[", "]");
    Regroup(name, r, EntityOpen, CloseTag);
  }

  lemma MentionSkips(x: string, y: string, atStart: bool)
    requires NoneOf(x, {'['})
    ensures NoMatchIn(MentionToEntitySpan, x, y, atStart)
    ensures NoMatchIn(MentionText, x, y, atStart)
  {
    forall i | 0 <= i < |x| ensures MentionToEntitySpan(x[i..] + y, atStart && i == 0).None? {
      assert (x[i..] + y)[0] == x[i];
    }
    forall i | 0 <= i < |x| ensures MentionText(x[i..] + y, atStart && i == 0).None? {
      assert (x[i..] + y)[0] == x[i];
    }
  }

  lemma SpanNoOpen(a: string)
    requires NoneOf(a, Brackets)
    ensures NoneOf(Span(a), {'['}) && NoneOf(Span(a), Brackets) && |Span(a)| > 0
  {
    SpanClean(a, Brackets);
    NoneOfSubset(Span(a), Brackets, {'['});
  }

  lemma {:induction false} StaticMentions(ps: seq<Part>, k: nat)
    requires CleanParts(ps)
    ensures RewriteAll(MentionToEntitySpan, Bracketed(ps), false) == EntitySpans(ps, false, k)
    decreases |ps|
  {
    if ps != [] {
      var m, a, rest := ps[0].name, ps[0].after, ps[1..];
      CleanHead(ps);
      MentionStep(m, Span(a) + Bracketed(rest));
      SpanNoOpen(a);
      MentionSkips(Span(a), Bracketed(rest), false);
      RewriteAllCopy(MentionToEntitySpan, Span(a), Bracketed(rest), false);
      StaticMentions(rest, k + 1);
      TagIs(false, k);
    }
  }

  /** `putTextIntoSpans` on a question in the flat form. */
  lemma PutTextIntoSpansFlat(first: string, ps: seq<Part>)
    requires PlainRun(first) && CleanParts(ps)
    ensures PutTextIntoSpans(Flat(first, ps)) == Marked(first, ps, false)
  {
    WrapPlainRunsFlat(first, ps);
    assert NoneOf(first, Brackets);
    SpanNoOpen(first);
    MentionSkips(Span(first), Bracketed(ps), true);
    RewriteAllCopy(MentionToEntitySpan, Span(first), Bracketed(ps), true);
    StaticMentions(ps, 0);
  }

  // ---------------------------------------------------------------------
  // The loop of putTextIntoSpansInput
  // ---------------------------------------------------------------------

  lemma Clean4(a: string, b: string, c: string, d: string, cs: set<char>)
    requires NoneOf(a, cs) && NoneOf(b, cs) && NoneOf(c, cs) && NoneOf(d, cs)
    ensures NoneOf(a + (b + (c + d)), cs)
  {
    NoneOfAppend(c, d, cs);
    NoneOfAppend(b, c + d, cs);
    NoneOfAppend(a, b + (c + d), cs);
  }

  lemma {:induction false} EntitySpansClean(ps: seq<Part>, input: bool, k: nat)
    requires CleanParts(ps)
    ensures NoneOf(EntitySpans(ps, input, k), Brackets)
    decreases |ps|
  {
    if ps != [] {
      var m, a, rest := ps[0].name, ps[0].after, ps[1..];
      CleanHead(ps);
      EntitySpansClean(rest, input, k + 1);
      SpanNoOpen(a);
      NoneOfAppend(Span(a), EntitySpans(rest, input, k + 1), Brackets);
      TagBrackets(input, k);
      assert NoneOf(CloseTag, Brackets);
      Clean4(Tag(input, k), m, CloseTag, Span(a) + EntitySpans(rest, input, k + 1), Brackets);
    }
  }

  lemma InputStepSome(text: string, j: nat, p: nat, mt: Match)
    requires FirstMatch(MentionText, text, true) == Some((p, mt))
    ensures p + mt.len <= |text|
    ensures InputSpanStep(text, j) == Some(Splice(text, p, mt.len, InputEntitySpan(j, mt.out)))
  {
  }

  lemma InputStepNone(text: string, j: nat)
    requires FirstMatch(MentionText, text, true) == None
    ensures InputSpanStep(text, j) == None
  {
  }

  lemma MentionFirstAt(pre: string, name: string, t: string)
    requires NoneOf(pre, {'['}) && NoneOf(name, {']'} + JsLineTerminators)
    ensures FirstMatch(MentionText, pre + ("[" + name + "]" + t), true) == Some((|pre|, Match(|name| + 2, name)))
  {
    var mention := "[" + name + "]" + t;
    MentionMatch(name, t, |pre| == 0);
    MentionSkips(pre, mention, true);
    FirstMatchCopy(MentionText, pre, mention, true);
  }

  /** The leftmost mention after a text without `[` is the next one to go. */
  lemma InputStepAt(pre: string, name: string, t: string, j: nat)
    requires NoneOf(pre, {'['}) && NoneOf(name, {']'} + JsLineTerminators)
    ensures InputSpanStep(pre + ("[" + (name + ("]" + t))), j)
            == Some(pre + InputEntitySpan(j, name) + t)
  {
    Regroup(name, t, "[", "]");
    var mid := "[" + name + "]";
    assert pre + ("[" + name + "]" + t) == pre + mid + t;
    MentionFirstAt(pre, name, t);
    InputStepSome(pre + mid + t, j, |pre|, Match(|name| + 2, name));
    SpliceAt(pre, mid, t, InputEntitySpan(j, name));
  }

  /** No `[` left: the loop stops. */
  lemma InputStepDone(text: string, j: nat)
    requires NoneOf(text, {'['})
    ensures InputSpanStep(text, j).None?
  {
    NoMentionIn(text);
    InputStepNone(text, j);
  }

  lemma NoMentionIn(text: string)
    requires NoneOf(text, {'['})
    ensures FirstMatch(MentionText, text, true) == None
  {
    assert text + [] == text;
    MentionSkips(text, [], true);
    FirstMatchCopy(MentionText, text, [], true);
  }

  /** What lies before the untouched mentions once the first of `ps` has
      become the `k`-th entity span. */
  function Advance(pre: string, ps: seq<Part>, k: nat): string
    requires ps != []
  {
    pre + InputEntitySpan(k, ps[0].name) + Span(ps[0].after)
  }

  /** One round of the loop turns the first bracketed mention after a clean
      prefix into an entity span. */
  lemma InputLoopNext(pre: string, ps: seq<Part>, k: nat)
    requires NoneOf(pre, {'['}) && CleanParts(ps) && ps != []
    ensures InputSpanStep(pre + Bracketed(ps), k) == Some(Advance(pre, ps, k) + Bracketed(ps[1..]))
  {
    var m, a, rest := ps[0].name, ps[0].after, ps[1..];
    CleanHead(ps);
    var t := Span(a) + Bracketed(rest);
    assert Bracketed(ps) == "[" + (m + ("]" + t));
    InputStepAt(pre, m, t, k);
    AdvanceShape(pre, InputEntitySpan(k, m), Span(a), Bracketed(rest));
  }

  lemma AdvanceShape(pre: string, e: string, s: string, b: string)
    ensures pre + e + (s + b) == pre + e + s + b
  {
  }

  /** The prefix stays free of `[`. */
  lemma AdvanceClean(pre: string, ps: seq<Part>, k: nat)
    requires NoneOf(pre, {'['}) && CleanParts(ps) && ps != []
    ensures NoneOf(Advance(pre, ps, k), {'['})
  {
    var m, a := ps[0].name, ps[0].after;
    assert MentionName(m) && PlainRun(a);
    NoneOfSubset(m, Unsafe + JsLineTerminators, {']'});
    InputEntitySpanClean(k, m);
    InputEntitySpanNoOpen(k, m);
    assert NoneOf(a, Brackets);
    SpanNoOpen(a);
    NoneOfSubset(Span(a), Brackets, {'['});
    NoneOfAppend(pre, InputEntitySpan(k, m), {'['});
    NoneOfAppend(pre + InputEntitySpan(k, m), Span(a), {'['});
  }

  lemma InputEntitySpanNoOpen(k: nat, m: string)
    requires NoneOf(m, Unsafe + JsLineTerminators)
    ensures NoneOf(InputEntitySpan(k, m), {'['})
  {
    InputEntityOpenClean(k);
    NoneOfSubset(InputEntityOpen(k), Brackets + {'$'}, {'['});
    NoneOfSubset(m, Unsafe + JsLineTerminators, {'['});
    assert NoneOf(CloseTag, {'['});
    NoneOfAppend(InputEntityOpen(k), m, {'['});
    NoneOfAppend(InputEntityOpen(k) + m, CloseTag, {'['});
  }

  /** The entity span written by the loop is the one `EntitySpans` expects. */
  lemma AdvanceSpans(pre: string, ps: seq<Part>, k: nat)
    requires ps != []
    ensures Advance(pre, ps, k) + EntitySpans(ps[1..], true, k + 1) == pre + EntitySpans(ps, true, k)
  {
    var m, a := ps[0].name, ps[0].after;
    TagIs(true, k);
    SpanEntryShape(pre, InputEntityOpen(k), m, CloseTag, Span(a), EntitySpans(ps[1..], true, k + 1));
  }

  lemma SpanEntryShape(pre: string, open: string, m: string, c: string, s: string, r: string)
    ensures pre + (open + m + c) + s + r == pre + (open + (m + (c + (s + r))))
  {
  }

  /** The loop from counter `k` on, after a prefix without `[`: every
      remaining mention becomes an entity span, numbered from `k`. */
  lemma {:induction false} InputLoop(pre: string, ps: seq<Part>, k: nat)
    requires NoneOf(pre, {'['}) && CleanParts(ps)
    ensures InputSpansFrom(pre + Bracketed(ps), k) == pre + EntitySpans(ps, true, k)
    decreases |ps|
  {
    if ps == [] {
      assert pre + Bracketed(ps) == pre + EntitySpans(ps, true, k) == pre;
      InputStepDone(pre, k);
    } else {
      InputLoopNext(pre, ps, k);
      AdvanceClean(pre, ps, k);
      CleanHead(ps);
      InputLoop(Advance(pre, ps, k), ps[1..], k + 1);
      AdvanceSpans(pre, ps, k);
    }
  }

  /** `putTextIntoSpansInput` on a question in the flat form. */
  lemma InputSpansFlat(first: string, ps: seq<Part>)
    requires PlainRun(first) && CleanParts(ps)
    ensures InputSpansFrom(WrapPlainRuns(Flat(first, ps)), 0) == Marked(first, ps, true)
  {
    WrapPlainRunsFlat(first, ps);
    assert NoneOf(first, Brackets);
    SpanNoOpen(first);
    NoneOfSubset(Span(first), Brackets, {'['});
    InputLoop(Span(first), ps, 0);
  }
}
