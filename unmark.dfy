/** The way back from the marked-up form built by `putTextIntoSpans` and
    `putTextIntoSpansInput` (static/script.js): `removeHtmlInputField` gives
    the flat question back and `getEntityNames` lists the mentioned names in
    order, whichever of the two renderings produced the markup. */
module Unmark {
  import opened Strings
  import opened Regex
  import opened Markup
  import opened RoundTrip

  // ---------------------------------------------------------------------
  // Shapes of strings, over abstract parts
  // ---------------------------------------------------------------------

  lemma Front(o: string, rest: string)
    ensures (o + rest)[..|o|] == o && (o + rest)[|o|..] == rest
  {
  }

  lemma Nest3(o: string, a: string, c: string, t: string)
    ensures (o + (a + c)) + t == o + (a + (c + t))
  {
  }

  lemma Nest3Left(o: string, a: string, c: string, t: string)
    ensures o + (a + (c + t)) == (o + (a + c)) + t
  {
  }

  // ---------------------------------------------------------------------
  // What the two patterns of removeHtmlInputField cannot match
  // ---------------------------------------------------------------------

  /** No pattern starts inside text without `<`: all three begin with `<`. */
  lemma NoTagIn(x: string, y: string, atStart: bool)
    requires NoneOf(x, {'<'})
    ensures NoMatchIn(PlainSpanText, x, y, atStart)
    ensures NoMatchIn(EntityToBrackets, x, y, atStart)
    ensures NoMatchIn(EntityName, x, y, atStart)
  {
    forall i | 0 <= i < |x| ensures PlainSpanText(x[i..] + y, atStart && i == 0).None? {
      assert (x[i..] + y)[0] == x[i];
    }
    forall i | 0 <= i < |x|
      ensures EntityTagAt(x[i..] + y).None?
      ensures EntityToBrackets(x[i..] + y, atStart && i == 0).None?
      ensures EntityName(x[i..] + y, atStart && i == 0).None?
    {
      assert (x[i..] + y)[0] == x[i];
      EntityOpenPrefixClean();
    }
  }

  /** The closing tag `</span>` starts neither a plain span nor an entity span. */
  lemma NoTagInClose(y: string)
    ensures NoMatchIn(PlainSpanText, CloseTag, y, false)
    ensures NoMatchIn(EntityToBrackets, CloseTag, y, false)
    ensures NoMatchIn(EntityName, CloseTag, y, false)
  {
    EntityOpenPrefixClean();
    assert EntityOpenPrefix[1] == 's';
    forall i | 0 <= i < |CloseTag|
      ensures PlainSpanText(CloseTag[i..] + y, false).None?
      ensures EntityTagAt(CloseTag[i..] + y).None?
    {
      var s := CloseTag[i..] + y;
      assert s[0] == CloseTag[i];
      if i == 0 {
        assert s[1] == '/';
      }
    }
  }

  /** The opening tag `<span>` of a plain span starts no entity span. */
  lemma NoEntityInPlainOpen(y: string, atStart: bool)
    ensures NoMatchIn(EntityName, PlainOpen, y, atStart)
  {
    EntityOpenPrefixClean();
    assert EntityOpenPrefix[5] == ' ';
    forall i | 0 <= i < |PlainOpen| ensures EntityTagAt(PlainOpen[i..] + y).None? {
      var s := PlainOpen[i..] + y;
      assert s[0] == PlainOpen[i];
      if i == 0 {
        assert s[5] == '>';
      }
    }
  }

  /** The opening tag of an entity span starts no plain span. */
  lemma NoPlainInTag(input: bool, k: nat, y: string)
    ensures NoMatchIn(PlainSpanText, Tag(input, k), y, false)
  {
    var tag := Tag(input, k);
    TagShape(input, k);
    TagTail(input, k);
    forall i | 0 <= i < |tag| ensures PlainSpanText(tag[i..] + y, false).None? {
      var s := tag[i..] + y;
      assert s[0] == tag[i];
      if i == 0 {
        assert s[5] == ' ';
      } else {
        assert tag[i] == tag[1..][i - 1];
      }
    }
  }

  // ---------------------------------------------------------------------
  // The patterns at a span
  // ---------------------------------------------------------------------

  /** `/<span>([^<]*?)<\/span>/` at a plain span captures its text. */
  lemma PlainSpanMatch(a: string, t: string, atStart: bool)
    requires NoneOf(a, {'<'})
    ensures PlainSpanText(Span(a) + t, atStart) == Some(Match(|Span(a)|, a))
  {
    var s := Span(a) + t;
    Nest3(PlainOpen, a, CloseTag, t);
    Front(PlainOpen, a + (CloseTag + t));
    FirstOfAfterClean(a, CloseTag + t, {'<'});
    assert FirstOf(CloseTag + t, {'<'}) == Some(0);
    var r := |PlainOpen| + |a|;
    Front(a, CloseTag + t);
    assert s[r..] == CloseTag + t;
    Front(CloseTag, t);
    assert s[|PlainOpen|..r] == a;
  }

  lemma PlainSpanStep(a: string, t: string, atStart: bool)
    requires NoneOf(a, {'<'})
    ensures RewriteAll(PlainSpanText, Span(a) + t, atStart) == a + RewriteAll(PlainSpanText, t, false)
  {
    PlainSpanMatch(a, t, atStart);
    RewriteAllStep(PlainSpanText, Span(a), t, atStart, a);
  }

  /** After the opening tag, the name runs to the closing tag. */
  lemma NameEndAt(name: string, t: string)
    requires NoneOf(name, {'<'})
    ensures NameEnd(name + (CloseTag + t)) == Some(|name|)
  {
    FirstOfAfterClean(name, CloseTag + t, {'<'});
    assert FirstOf(CloseTag + t, {'<'}) == Some(0);
    Front(name, CloseTag + t);
    Front(CloseTag, t);
  }

  /** The opening tag ends at the first `>`. */
  lemma TagBodyAt(attrs: string, name: string, t: string)
    requires NoneOf(attrs, {'>'}) && NoneOf(name, {'<'})
    ensures TagBody(attrs + (">" + (name + (CloseTag + t)))) == Some((|attrs|, |attrs| + 1 + |name|))
  {
    var rest := name + (CloseTag + t);
    var u := attrs + (">" + rest);
    FirstOfAfterClean(attrs, ">" + rest, {'>'});
    assert FirstOf(">" + rest, {'>'}) == Some(0);
    Front(attrs, ">" + rest);
    assert u[|attrs| + 1..] == (">" + rest)[1..] == rest;
    NameEndAt(name, t);
  }

  /** `inputEntityRegex` at an entity span whose opening tag is `tag`. */
  lemma EntityTagFront(tag: string, attrs: string, name: string, t: string)
    requires tag == EntityOpenPrefix + (attrs + ">")
    requires NoneOf(attrs, {'>'}) && NoneOf(name, {'<'})
    ensures EntityTagAt(tag + (name + (CloseTag + t))) == Some((|tag| - 1, |tag| + |name|))
  {
    var rest := attrs + (">" + (name + (CloseTag + t)));
    Nest3(EntityOpenPrefix, attrs, ">", name + (CloseTag + t));
    TagBodyAt(attrs, name, t);
    EntityTagAfterPrefix(rest, |attrs|, |attrs| + 1 + |name|);
  }

  /** `inputEntityRegex` past the fixed start of the opening tag. */
  lemma EntityTagAfterPrefix(rest: string, a: nat, b: nat)
    requires TagBody(rest) == Some((a, b))
    ensures EntityTagAt(EntityOpenPrefix + rest) == Some((|EntityOpenPrefix| + a, |EntityOpenPrefix| + b))
  {
    Front(EntityOpenPrefix, rest);
  }

  /** At an entity span both uses of `inputEntityRegex` consume the whole
      span: `removeHtmlInputField` writes the name in brackets,
      `getEntityNames` reports the name. */
  lemma EntitySpanMatch(tag: string, attrs: string, name: string, t: string, atStart: bool)
    requires tag == EntityOpenPrefix + (attrs + ">")
    requires NoneOf(attrs, {'>'}) && NoneOf(name, {'<'})
    ensures EntityToBrackets(tag + (name + CloseTag) + t, atStart)
            == Some(Match(|tag + (name + CloseTag)|, "[" + name + "]"))
    ensures EntityName(tag + (name + CloseTag) + t, atStart)
            == Some(Match(|tag + (name + CloseTag)|, name))
  {
    var x := tag + (name + CloseTag) + t;
    Nest3(tag, name, CloseTag, t);
    EntityTagFront(tag, attrs, name, t);
    Front(tag, name + (CloseTag + t));
    Front(name, CloseTag + t);
    assert x[|tag| - 1 + 1..|tag| + |name|] == name;
    EntityTagOutputs(x, atStart, |tag| - 1, |tag| + |name|);
  }

  /** What both uses of `inputEntityRegex` report, given the tag's extent. */
  lemma EntityTagOutputs(s: string, atStart: bool, q: nat, r: nat)
    requires EntityTagAt(s) == Some((q, r))
    ensures q < r && r + |CloseTag| <= |s|
    ensures EntityName(s, atStart) == Some(Match(r + |CloseTag|, s[q + 1..r]))
    ensures EntityToBrackets(s, atStart) == Some(Match(r + |CloseTag|, "[" + s[q + 1..r] + "]"))
  {
  }

  lemma EntityMatch(input: bool, k: nat, name: string, t: string, atStart: bool)
    requires NoneOf(name, {'<'})
    ensures EntityToBrackets(Tag(input, k) + (name + CloseTag) + t, atStart)
            == Some(Match(|Tag(input, k) + (name + CloseTag)|, "[" + name + "]"))
    ensures EntityName(Tag(input, k) + (name + CloseTag) + t, atStart)
            == Some(Match(|Tag(input, k) + (name + CloseTag)|, name))
  {
    AttrsClean(input, k);
    EntitySpanMatch(Tag(input, k), Attrs(input, k), name, t, atStart);
  }

  // ---------------------------------------------------------------------
  // removeHtmlInputField
  // ---------------------------------------------------------------------

  /** The markup once every plain span has given back its text. */
  function Unspanned(ps: seq<Part>, input: bool, k: nat): string
    decreases |ps|
  {
    if ps == [] then []
    else Tag(input, k) + (ps[0].name + (CloseTag + (ps[0].after + Unspanned(ps[1..], input, k + 1))))
  }

  /** The first replacement unwraps every plain span and leaves the entity
      spans alone. */
  lemma {:induction false} PlainPass(ps: seq<Part>, input: bool, k: nat)
    requires CleanParts(ps)
    ensures RewriteAll(PlainSpanText, EntitySpans(ps, input, k), false) == Unspanned(ps, input, k)
    decreases |ps|
  {
    if ps != [] {
      var m, a, rest := ps[0].name, ps[0].after, ps[1..];
      var r := EntitySpans(rest, input, k + 1);
      CleanHead(ps);
      NoPlainInTag(input, k, m + (CloseTag + (Span(a) + r)));
      RewriteAllCopy(PlainSpanText, Tag(input, k), m + (CloseTag + (Span(a) + r)), false);
      NoTagIn(m, CloseTag + (Span(a) + r), false);
      RewriteAllCopy(PlainSpanText, m, CloseTag + (Span(a) + r), false);
      NoTagInClose(Span(a) + r);
      RewriteAllCopy(PlainSpanText, CloseTag, Span(a) + r, false);
      PlainSpanStep(a, r, false);
      PlainPass(rest, input, k + 1);
    }
  }

  /** The second replacement turns every entity span back into a mention. */
  lemma {:induction false} BracketPass(ps: seq<Part>, input: bool, k: nat, atStart: bool)
    requires CleanParts(ps)
    ensures RewriteAll(EntityToBrackets, Unspanned(ps, input, k), atStart) == Mentions(ps)
    decreases |ps|
  {
    if ps != [] {
      var m, a, rest := ps[0].name, ps[0].after, ps[1..];
      var u := Unspanned(rest, input, k + 1);
      CleanHead(ps);
      var span := Tag(input, k) + (m + CloseTag);
      Nest3Left(Tag(input, k), m, CloseTag, a + u);
      EntityMatch(input, k, m, a + u, atStart);
      RewriteAllStep(EntityToBrackets, span, a + u, atStart, "[" + m + "]");
      NoTagIn(a, u, false);
      RewriteAllCopy(EntityToBrackets, a, u, false);
      BracketPass(rest, input, k + 1, false);
      Regroup(m, a + Mentions(rest), "[", "]");
    }
  }

  /** `removeHtmlInputField` gives back the flat question. */
  lemma RemoveMarked(first: string, ps: seq<Part>, input: bool)
    requires PlainRun(first) && CleanParts(ps)
    ensures RemoveHtmlInputField(Marked(first, ps, input)) == Flat(first, ps)
  {
    assert NoneOf(first, {'<'});
    PlainSpanStep(first, EntitySpans(ps, input, 0), true);
    PlainPass(ps, input, 0);
    NoTagIn(first, Unspanned(ps, input, 0), true);
    RewriteAllCopy(EntityToBrackets, first, Unspanned(ps, input, 0), true);
    BracketPass(ps, input, 0, |first| == 0);
  }

  // ---------------------------------------------------------------------
  // getEntityNames
  // ---------------------------------------------------------------------

  /** A plain span holds no entity span. */
  lemma SpanNames(a: string, t: string, atStart: bool)
    requires NoneOf(a, {'<'})
    ensures AllOutputs(EntityName, Span(a) + t, atStart) == AllOutputs(EntityName, t, false)
  {
    Nest3(PlainOpen, a, CloseTag, t);
    NoEntityInPlainOpen(a + (CloseTag + t), atStart);
    AllOutputsCopy(EntityName, PlainOpen, a + (CloseTag + t), atStart);
    NoTagIn(a, CloseTag + t, false);
    AllOutputsCopy(EntityName, a, CloseTag + t, false);
    NoTagInClose(t);
    AllOutputsCopy(EntityName, CloseTag, t, false);
  }

  lemma {:induction false} NamesPass(ps: seq<Part>, input: bool, k: nat)
    requires CleanParts(ps)
    ensures AllOutputs(EntityName, EntitySpans(ps, input, k), false) == Names(ps)
    decreases |ps|
  {
    if ps != [] {
      var m, a, rest := ps[0].name, ps[0].after, ps[1..];
      var t := Span(a) + EntitySpans(rest, input, k + 1);
      CleanHead(ps);
      Nest3Left(Tag(input, k), m, CloseTag, t);
      EntityMatch(input, k, m, t, false);
      AllOutputsStep(EntityName, Tag(input, k) + (m + CloseTag), t, false, m);
      SpanNames(a, EntitySpans(rest, input, k + 1), false);
      NamesPass(rest, input, k + 1);
    }
  }

  /** `getEntityNames` lists the mentioned names, in order. */
  lemma NamesMarked(first: string, ps: seq<Part>, input: bool)
    requires PlainRun(first) && CleanParts(ps)
    ensures GetEntityNames(Marked(first, ps, input)) == Names(ps)
  {
    assert NoneOf(first, {'<'});
    SpanNames(first, EntitySpans(ps, input, 0), true);
    NamesPass(ps, input, 0);
  }

  // ---------------------------------------------------------------------
  // Round trips
  // ---------------------------------------------------------------------

  /** A completion button's markup gives back its question and its names. */
  lemma StaticRoundTrip(first: string, ps: seq<Part>)
    requires PlainRun(first) && CleanParts(ps)
    ensures RemoveHtmlInputField(PutTextIntoSpans(Flat(first, ps))) == Flat(first, ps)
    ensures GetEntityNames(PutTextIntoSpans(Flat(first, ps))) == Names(ps)
  {
    PutTextIntoSpansFlat(first, ps);
    RemoveMarked(first, ps, false);
    NamesMarked(first, ps, false);
  }

  /** The input field's markup gives back its question and its names. */
  lemma InputRoundTrip(first: string, ps: seq<Part>)
    requires PlainRun(first) && CleanParts(ps)
    ensures RemoveHtmlInputField(InputSpansFrom(WrapPlainRuns(Flat(first, ps)), 0)) == Flat(first, ps)
    ensures GetEntityNames(InputSpansFrom(WrapPlainRuns(Flat(first, ps)), 0)) == Names(ps)
  {
    InputSpansFlat(first, ps);
    RemoveMarked(first, ps, true);
    NamesMarked(first, ps, true);
  }
}
