/** The string side of the question input field in static/script.js.

    The question exists in two forms: the flat form, where an entity mention
    is written `[Marie Curie]`, and the markup form shown in the editable
    field, where every run of plain text is wrapped in `<span>…</span>` and
    every mention in `<span class="entity" …>…</span>`. This module holds the
    conversions between the two, the readers of the markup, and the
    rewriting of mentions into QIDs and of trailing mentions into aliases. */
module Markup {
  import opened Strings
  import opened Regex

  const Brackets: set<char> := {'[', ']'}

  /** `<span class="entity"`, the start of an entity span's opening tag. */
  const EntityOpenPrefix: string := "<span class=\"entity\""
  const PlainOpen: string := "<span>"
  const CloseTag: string := "</span>"

  /** Opening tag of an entity span in the static rendering (completion buttons). */
  const EntityOpen: string := EntityOpenPrefix + ">"

  /** Attributes of the `i`-th entity span in the input field: it hides the
      tooltip on mouseleave and shows the tooltip of the `i`-th QID on
      mouseenter. */
  const MouseLeave: string := " onmouseleave=\"hideTooltip()\""
  const MouseEnterCall: string := " onmouseenter=\"handleEntityMouseover("
  const CallEnd: string := ", event)\""

  function InputEntityAttrs(i: nat): string
  {
    MouseLeave + MouseEnterCall + NatToString(i) + CallEnd
  }

  /** Opening tag of the `i`-th entity span in the input field. */
  function InputEntityOpen(i: nat): string
  {
    EntityOpenPrefix + InputEntityAttrs(i) + ">"
  }

  /** Characters that never occur inside the attributes of an input entity span. */
  const TagFree: set<char> := {'[', ']', '$', '<', '>'}

  lemma {:induction false} InputEntityAttrsClean(i: nat)
    ensures NoneOf(InputEntityAttrs(i), TagFree)
  {
    MouseLeaveClean();
    MouseEnterCallClean();
    assert NoneOf(CallEnd, TagFree);
    NoneOfAppend(MouseLeave, MouseEnterCall, TagFree);
    NoneOfAppend(MouseLeave + MouseEnterCall, NatToString(i), TagFree);
    NoneOfAppend(MouseLeave + MouseEnterCall + NatToString(i), CallEnd, TagFree);
  }

  lemma MouseLeaveClean()
    ensures NoneOf(MouseLeave, TagFree)
  {
  }

  lemma MouseEnterCallClean()
    ensures NoneOf(MouseEnterCall, TagFree)
  {
  }

  lemma EntityOpenPrefixClean()
    ensures NoneOf(EntityOpenPrefix, Brackets + {'$', '>'}) && NoneOf(EntityOpenPrefix[1..], {'<'})
    ensures EntityOpenPrefix[0] == '<' && |EntityOpenPrefix| == 20
  {
    PrefixNoBracket();
    PrefixOneLess();
  }

  lemma PrefixNoBracket()
    ensures NoneOf(EntityOpenPrefix, Brackets + {'$', '>'})
  {
  }

  lemma PrefixOneLess()
    ensures NoneOf(EntityOpenPrefix[1..], {'<'})
  {
  }

  // ---------------------------------------------------------------------
  // inputEntityRegex  /<span class="entity"[^>]*>([^<]*?)<\/span>/g
  // ---------------------------------------------------------------------

  /** The part of `inputEntityRegex` after the opening tag: the lazy
      `[^<]*?` can only stop at the first `<`, which must start `</span>`.
      The index of that `<`. */
  function NameEnd(v: string): (b: Option<nat>)
    ensures b.Some? ==> b.value + |CloseTag| <= |v|
  {
    match FirstOf(v, {'<'})
    case None => None
    case Some(b) => if StartsWith(v[b..], CloseTag) then Some(b) else None
  }

  /** The part after the fixed prefix `<span class="entity"`: `[^>]*` runs to
      the first `>`, then the name. The indices of that `>` and of the
      closing tag's `<`. */
  function TagBody(u: string): (r: Option<(nat, nat)>)
    ensures r.Some? ==> r.value.0 < r.value.1 && r.value.1 + |CloseTag| <= |u|
  {
    match FirstOf(u, {'>'})
    case None => None
    case Some(a) =>
      match NameEnd(u[a + 1..])
      case None => None
      case Some(b) => Some((a, a + 1 + b))
  }

  /** Where `inputEntityRegex` matches at the front of `s`: the index `q` of
      the `>` that closes the opening tag and the index `r` of the `<` of the
      closing tag. */
  function EntityTagAt(s: string): (r: Option<(nat, nat)>)
    ensures r.Some? ==> |EntityOpenPrefix| <= r.value.0 < r.value.1 && r.value.1 + |CloseTag| <= |s|
  {
    if !StartsWith(s, EntityOpenPrefix) then None
    else match TagBody(s[|EntityOpenPrefix|..])
      case None => None
      case Some((a, b)) => Some((|EntityOpenPrefix| + a, |EntityOpenPrefix| + b))
  }

  /** A match is the entity opening tag up to its first `>`, text without
      `<`, and a closing tag. */
  lemma EntityTagAtMatches(s: string)
    ensures EntityTagAt(s).Some? ==>
              var (q, r) := EntityTagAt(s).value;
              StartsWith(s, EntityOpenPrefix) && s[q] == '>' && NoneOf(s[|EntityOpenPrefix|..q], {'>'})
              && NoneOf(s[q + 1..r], {'<'}) && s[r..r + |CloseTag|] == CloseTag
  {
    if EntityTagAt(s).Some? {
      var (q, r) := EntityTagAt(s).value;
      EntityTagAtFacts(s, q, r);
    }
  }

  /** `EntityTagAtMatches` for a known extent. */
  lemma EntityTagAtFacts(s: string, q: nat, r: nat)
    requires EntityTagAt(s) == Some((q, r))
    ensures StartsWith(s, EntityOpenPrefix) && s[q] == '>' && NoneOf(s[|EntityOpenPrefix|..q], {'>'})
    ensures NoneOf(s[q + 1..r], {'<'}) && s[r..r + |CloseTag|] == CloseTag
  {
    var p := |EntityOpenPrefix|;
    var u := s[p..];
    var a, c := q - p, r - p;
    EntityTagAtBody(s, q, r);
    TagBodyFacts(u, a, c);
    SliceOfDrop(s, p, 0, a);
    SliceOfDrop(s, p, a + 1, c);
    SliceOfDrop(s, p, c, c + |CloseTag|);
  }

  /** A match past the fixed prefix, for a known extent. */
  lemma EntityTagAtBody(s: string, q: nat, r: nat)
    requires EntityTagAt(s) == Some((q, r))
    ensures StartsWith(s, EntityOpenPrefix)
    ensures TagBody(s[|EntityOpenPrefix|..]) == Some((q - |EntityOpenPrefix|, r - |EntityOpenPrefix|))
  {
  }

  /** The part after the fixed prefix, for a known extent. */
  lemma TagBodyFacts(u: string, a: nat, c: nat)
    requires TagBody(u) == Some((a, c))
    ensures u[a] == '>' && NoneOf(u[0..a], {'>'})
    ensures NoneOf(u[a + 1..c], {'<'}) && u[c..c + |CloseTag|] == CloseTag
  {
    var v := u[a + 1..];
    var b := c - a - 1;
    assert FirstOf(u, {'>'}) == Some(a) && NameEnd(v) == Some(b);
    FirstOfLeftmost(u, {'>'});
    assert u[0..a] == u[..a];
    NameEndFacts(v, b);
    SliceOfDrop(u, a + 1, 0, b);
    SliceOfDrop(u, a + 1, b, b + |CloseTag|);
  }

  /** The name part, for a known end. */
  lemma NameEndFacts(v: string, b: nat)
    requires NameEnd(v) == Some(b)
    ensures NoneOf(v[0..b], {'<'}) && v[b..b + |CloseTag|] == CloseTag
  {
    FirstOfLeftmost(v, {'<'});
    assert v[0..b] == v[..b];
    assert v[b..][..|CloseTag|] == v[b..b + |CloseTag|];
  }

  /** A slice of a suffix is a slice of the whole. */
  lemma SliceOfDrop(s: string, p: nat, i: nat, j: nat)
    requires i <= j && p + j <= |s|
    ensures s[p..][i..j] == s[p + i..p + j]
  {
  }

  /** `inputEntityRegex` reporting its captured entity text. */
  function EntityName(s: string, atStart: bool): Option<Match>
  {
    match EntityTagAt(s)
    case None => None
    case Some((q, r)) => Some(Match(r + |CloseTag|, s[q + 1..r]))
  }

  /** `inputEntityRegex` with the replacement `[$1]` of `removeHtmlInputField`. */
  function EntityToBrackets(s: string, atStart: bool): Option<Match>
  {
    match EntityTagAt(s)
    case None => None
    case Some((q, r)) => Some(Match(r + |CloseTag|, "[" + s[q + 1..r] + "]"))
  }

  /** `getEntityNames`: the text of every entity span, in order. */
  function GetEntityNames(text: string): seq<string>
  {
    AllOutputs(EntityName, text, true)
  }

  // ---------------------------------------------------------------------
  // getSpansAsArray: pieces of the markup ending in `</span>` (regex /<\/span>/gi)
  // ---------------------------------------------------------------------

  /** A closing span tag at `i`; the `i` flag makes the tag name case-insensitive. */
  predicate CloseTagAt(s: string, i: nat)
  {
    i + 7 <= |s| && s[i] == '<' && s[i + 1] == '/' && s[i + 2] in {'s', 'S'} && s[i + 3] in {'p', 'P'}
    && s[i + 4] in {'a', 'A'} && s[i + 5] in {'n', 'N'} && s[i + 6] == '>'
  }

  /** End index (one past the `>`) of every closing tag found when scanning
      from `from`, the way `regex.exec` moves `lastIndex` past each match. */
  function SpanEnds(s: string, from: nat): (r: seq<nat>)
    decreases |s| - from
    ensures forall k :: 0 <= k < |r| ==> from + 7 <= r[k] <= |s| && CloseTagAt(s, r[k] - 7)
    ensures forall a, b :: 0 <= a < b < |r| ==> r[a] + 7 <= r[b]
  {
    if from + 7 > |s| then []
    else if CloseTagAt(s, from) then [from + 7] + SpanEnds(s, from + 7)
    else SpanEnds(s, from + 1)
  }

  /** The slices of `s` between consecutive ends, starting at `start`. */
  function Slices(s: string, start: nat, ends: seq<nat>): seq<string>
    decreases |ends|
  {
    if ends == [] then [] else [JsSlice(s, start, ends[0])] + Slices(s, ends[0], ends[1..])
  }

  /** The pieces `getSpansAsArray` returns for `text`. */
  function Spans(text: string): seq<string>
  {
    Slices(text, 0, SpanEnds(text, 0))
  }

  /** `getSpansAsArray`: the end of every closing tag is collected the way
      the global `regex.exec` loop finds them, then the text is cut at those
      ends. */
  method GetSpansAsArray(text: string) returns (spans: seq<string>)
    ensures spans == Spans(text)
  {
    var indices := CloseTagEnds(text);
    spans := CutAt(text, indices);
  }

  /** The first loop of `getSpansAsArray`. */
  method CloseTagEnds(text: string) returns (indices: seq<nat>)
    ensures indices == SpanEnds(text, 0)
  {
    indices := [];
    var from: nat := 0;
    while from + 7 <= |text|
      invariant indices + SpanEnds(text, from) == SpanEnds(text, 0)
      decreases |text| - from
    {
      if CloseTagAt(text, from) {
        indices := indices + [from + 7];
        from := from + 7;
      } else {
        from := from + 1;
      }
    }
  }

  /** The second loop of `getSpansAsArray`: `text.slice` between
      consecutive ends. */
  method CutAt(text: string, indices: seq<nat>) returns (spans: seq<string>)
    ensures spans == Slices(text, 0, indices)
  {
    spans := [];
    var startIndex: nat := 0;
    for i := 0 to |indices|
      invariant startIndex == if i == 0 then 0 else indices[i - 1]
      invariant spans + Slices(text, startIndex, indices[i..]) == Slices(text, 0, indices)
    {
      assert indices[i..][1..] == indices[i + 1..];
      spans := spans + [JsSlice(text, startIndex, indices[i])];
      startIndex := indices[i];
    }
  }

  /** Every closing tag at or after `from` is found by the scan. */
  lemma {:induction false} SpanEndsFindsAll(s: string, from: nat, i: nat)
    requires from <= i && CloseTagAt(s, i)
    ensures i + 7 in SpanEnds(s, from)
    decreases |s| - from
  {
    if from == i {
      assert SpanEnds(s, from) == [from + 7] + SpanEnds(s, from + 7);
    } else if CloseTagAt(s, from) {
      CloseTagsApart(s, from, i);
      SpanEndsFindsAll(s, from + 7, i);
      assert SpanEnds(s, from) == [from + 7] + SpanEnds(s, from + 7);
    } else {
      SpanEndsFindsAll(s, from + 1, i);
      assert SpanEnds(s, from) == SpanEnds(s, from + 1);
    }
  }

  /** Two closing tags do not overlap. */
  lemma CloseTagsApart(s: string, a: nat, b: nat)
    requires a < b && CloseTagAt(s, a) && CloseTagAt(s, b)
    ensures a + 7 <= b
  {
  }

  /** `getSpansAsArray` gives one piece per closing tag in the text. */
  lemma SpansPerCloseTag(text: string)
    ensures |Spans(text)| == |SpanEnds(text, 0)|
    ensures forall i: nat :: CloseTagAt(text, i) <==> i + 7 in SpanEnds(text, 0)
  {
    SlicesLength(text, 0, SpanEnds(text, 0));
    forall i: nat | CloseTagAt(text, i) ensures i + 7 in SpanEnds(text, 0) {
      SpanEndsFindsAll(text, 0, i);
    }
  }

  lemma {:induction false} SlicesLength(s: string, start: nat, ends: seq<nat>)
    ensures |Slices(s, start, ends)| == |ends|
    decreases |ends|
  {
    if ends != [] {
      SlicesLength(s, ends[0], ends[1..]);
    }
  }

  /** A closing tag that ends a slice is found at the end of the slice. */
  lemma CloseTagAtSlice(s: string, a: nat, b: nat)
    requires a + 7 <= b <= |s| && CloseTagAt(s, b - 7)
    ensures CloseTagAt(s[a..b], b - a - 7)
  {
    assert s[a..b][b - a - 7..] == s[b - 7..b];
  }

  /** A piece of `getSpansAsArray`'s result: it ends with a closing tag. */
  predicate EndsInCloseTag(piece: string)
  {
    |piece| >= 7 && CloseTagAt(piece, |piece| - 7)
  }

  /** Each piece ends with a closing tag. */
  lemma {:induction false} SlicesEndInTags(s: string, start: nat, ends: seq<nat>)
    requires start <= |s|
    requires forall k :: 0 <= k < |ends| ==> start + 7 <= ends[k] <= |s| && CloseTagAt(s, ends[k] - 7)
    requires forall a, b :: 0 <= a < b < |ends| ==> ends[a] + 7 <= ends[b]
    ensures forall piece <- Slices(s, start, ends) :: EndsInCloseTag(piece)
    decreases |ends|
  {
    if ends != [] {
      var rest := Slices(s, ends[0], ends[1..]);
      SlicesEndInTags(s, ends[0], ends[1..]);
      CloseTagAtSlice(s, start, ends[0]);
      assert EndsInCloseTag(s[start..ends[0]]);
    }
  }

  /** The pieces put together are the text up to the end of its last
      closing tag. */
  lemma {:induction false} SlicesCover(s: string, start: nat, ends: seq<nat>)
    requires start <= |s|
    requires forall k :: 0 <= k < |ends| ==> start <= ends[k] <= |s|
    requires forall a, b :: 0 <= a < b < |ends| ==> ends[a] <= ends[b]
    ensures ends != [] ==> Concat(Slices(s, start, ends)) == s[start..ends[|ends| - 1]]
    decreases |ends|
  {
    if ends != [] {
      SlicesCover(s, ends[0], ends[1..]);
      var piece := s[start..ends[0]];
      if |ends| > 1 {
        assert s[start..ends[|ends| - 1]] == piece + s[ends[0]..ends[|ends| - 1]];
      } else {
        assert Concat([piece]) == piece + Concat([]);
      }
    }
  }

  /** What `getSpansAsArray` promises: pieces that each end with a closing
      tag and that put together give the text up to its last closing tag. */
  lemma SpansCover(text: string)
    ensures forall piece <- Spans(text) :: EndsInCloseTag(piece)
    ensures var ends := SpanEnds(text, 0);
            (ends != [] ==> Concat(Spans(text)) == text[..ends[|ends| - 1]])
            && (ends == [] ==> Spans(text) == [])
  {
    var ends := SpanEnds(text, 0);
    assert Spans(text) == Slices(text, 0, ends);
    SlicesEndInTags(text, 0, ends);
    SlicesCover(text, 0, ends);
    if ends != [] {
      assert text[0..ends[|ends| - 1]] == text[..ends[|ends| - 1]];
    }
  }

  // ---------------------------------------------------------------------
  // putTextIntoSpans / putTextIntoSpansInput
  // ---------------------------------------------------------------------

  /** `/(\]|^)([^\[\]]*?)(\[)/g` with replacement `$1<span>$2</span>$3`: the
      bracket-free run after a `]` (or at the start of the input) that is
      followed by `[`. */
  function SpanBeforeOpen(s: string, atStart: bool): Option<Match>
  {
    if |s| > 0 && s[0] == ']' && FirstOf(s[1..], Brackets).Some? && s[1 + FirstOf(s[1..], Brackets).value] == '[' then
      var k := FirstOf(s[1..], Brackets).value;
      Some(Match(k + 2, "]" + PlainOpen + s[1..1 + k] + CloseTag + "["))
    else if atStart && FirstOf(s, Brackets).Some? && s[FirstOf(s, Brackets).value] == '[' then
      var k := FirstOf(s, Brackets).value;
      Some(Match(k + 1, PlainOpen + s[..k] + CloseTag + "["))
    else None
  }

  /** `/(\]|^)([^\[\]]*?)($)/g` with replacement `$1<span>$2</span>`: the
      bracket-free run from a `]` (or from the start) to the end. */
  function SpanAtEnd(s: string, atStart: bool): Option<Match>
  {
    if |s| > 0 && s[0] == ']' && NoneOf(s[1..], Brackets) then
      Some(Match(|s|, "]" + PlainOpen + s[1..] + CloseTag))
    else if atStart && NoneOf(s, Brackets) then
      Some(Match(|s|, PlainOpen + s + CloseTag))
    else None
  }

  /** Where `/\[(.*?)\]/` matches at the front of `s`: the index of the `]`.
      `.` does not match a line terminator, so the mention must close
      before the next one. */
  function MentionEnd(s: string): (r: Option<nat>)
    ensures r.Some? ==> 1 <= r.value < |s| && s[0] == '[' && s[r.value] == ']'
    ensures r.Some? ==> NoneOf(s[1..r.value], {']'} + JsLineTerminators)
  {
    if |s| > 0 && s[0] == '[' then
      FirstOfLeftmost(s[1..], {']'} + JsLineTerminators);
      match FirstOf(s[1..], {']'} + JsLineTerminators)
      case None => None
      case Some(k) => assert s[1..][..k] == s[1..1 + k]; if s[1 + k] == ']' then Some(1 + k) else None
    else None
  }

  /** `/\[(.*?)\]/g` with replacement `<span class="entity">$1</span>`. */
  function MentionToEntitySpan(s: string, atStart: bool): Option<Match>
  {
    match MentionEnd(s)
    case None => None
    case Some(j) => Some(Match(j + 1, EntityOpen + s[1..j] + CloseTag))
  }

  /** `/\[(.*?)\]/` reporting the captured mention text. */
  function MentionText(s: string, atStart: bool): Option<Match>
  {
    match MentionEnd(s)
    case None => None
    case Some(j) => Some(Match(j + 1, s[1..j]))
  }

  /** `/\[.*?\]/g` reporting the whole match, as `question.match` does. */
  function MentionWhole(s: string, atStart: bool): Option<Match>
  {
    match MentionEnd(s)
    case None => None
    case Some(j) => Some(Match(j + 1, s[..j + 1]))
  }

  /** The first two replacements, shared by both variants: every run of plain
      text is wrapped in a plain span. */
  function WrapPlainRuns(text: string): string
  {
    RewriteAll(SpanAtEnd, RewriteAll(SpanBeforeOpen, text, true), true)
  }

  /** `putTextIntoSpans`: the markup of a completion button. */
  function PutTextIntoSpans(text: string): string
  {
    RewriteAll(MentionToEntitySpan, WrapPlainRuns(text), true)
  }

  /** Number of `]` in `s`. */
  function CloseBrackets(s: string): nat
  {
    if s == [] then 0 else (if s[0] == ']' then 1 else 0) + CloseBrackets(s[1..])
  }

  lemma {:induction false} CloseBracketsAppend(x: string, y: string)
    ensures CloseBrackets(x + y) == CloseBrackets(x) + CloseBrackets(y)
  {
    if x != [] {
      assert (x + y)[0] == x[0] && (x + y)[1..] == x[1..] + y;
      CloseBracketsAppend(x[1..], y);
    } else {
      assert x + y == y;
    }
  }

  lemma {:induction false} CloseBracketsNone(x: string)
    requires NoneOf(x, {']'})
    ensures CloseBrackets(x) == 0
  {
    if x != [] {
      assert x[0] !in {']'};
      CloseBracketsNone(x[1..]);
    }
  }

  /** The leftmost mention: `[`, its text (no `]`, no line terminator), `]`. */
  lemma FirstMention(text: string, atStart: bool, p: nat, mt: Match)
    requires FirstMatch(MentionText, text, atStart) == Some((p, mt))
    ensures 2 <= mt.len && p + mt.len <= |text|
    ensures text[p] == '[' && text[p + mt.len - 1] == ']' && mt.out == text[p + 1..p + mt.len - 1]
    ensures NoneOf(mt.out, {']'} + JsLineTerminators)
  {
    FirstMentionMatch(text, atStart, p, mt);
    SuffixAt(text, p, mt.len - 1);
  }

  lemma SuffixAt(text: string, p: nat, j: nat)
    requires 1 <= j && p + j < |text|
    ensures text[p..][0] == text[p] && text[p..][j] == text[p + j] && text[p..][1..j] == text[p + 1..p + j]
  {
  }

  lemma FirstMentionMatch(text: string, atStart: bool, p: nat, mt: Match)
    requires FirstMatch(MentionText, text, atStart) == Some((p, mt))
    ensures p <= |text| && MentionEnd(text[p..]).Some?
    ensures mt.len == MentionEnd(text[p..]).value + 1
    ensures mt.out == text[p..][1..mt.len - 1]
  {
    FirstMatchFound(MentionText, text, atStart);
  }

  /** A slice that starts with `[` and ends with `]` is its inside in brackets. */
  lemma BracketedSlice(text: string, p: nat, n: nat, inside: string)
    requires 2 <= n && p + n <= |text| && text[p] == '[' && text[p + n - 1] == ']'
    requires inside == text[p + 1..p + n - 1]
    ensures text[p..p + n] == "[" + inside + "]"
  {
    var s := text[p..p + n];
    forall k | 0 <= k < |inside| ensures s[1..n - 1][k] == inside[k] {
      assert s[1..n - 1][k] == s[k + 1] == text[p + k + 1];
    }
    assert s[1..n - 1] == inside;
    assert s == [s[0]] + s[1..n - 1] + [s[n - 1]];
  }

  /** Replacing a `[…]` whose text has no `]` by text without `]` removes one `]`. */
  lemma SpliceCloseBrackets(pre: string, mid: string, post: string, rep: string)
    requires NoneOf(mid, {']'}) && NoneOf(rep, {']'})
    ensures CloseBrackets(pre + rep + post) < CloseBrackets(pre + ("[" + mid + "]") + post)
  {
    assert pre + ("[" + mid + "]") + post == pre + "[" + mid + "]" + post;
    CloseBracketsNone(mid);
    CloseBracketsNone(rep);
    CloseBracketsAppend(pre + rep, post);
    CloseBracketsAppend(pre, rep);
    CloseBracketsAppend(pre + "[" + mid + "]", post);
    CloseBracketsAppend(pre + "[" + mid, "]");
    CloseBracketsAppend(pre + "[", mid);
    CloseBracketsAppend(pre, "[");
    assert CloseBrackets("[") == 0 && CloseBrackets("]") == 1;
  }

  /** The opening tag of an input entity span has no bracket and no `$`. */
  lemma {:induction false} InputEntityOpenClean(i: nat)
    ensures NoneOf(InputEntityOpen(i), Brackets + {'$'})
  {
    InputEntityAttrsClean(i);
    EntityOpenPrefixClean();
    NoneOfSubset(InputEntityAttrs(i), TagFree, Brackets + {'$'});
    NoneOfAppend(EntityOpenPrefix, InputEntityAttrs(i), Brackets + {'$'});
    NoneOfAppend(EntityOpenPrefix + InputEntityAttrs(i), ">", Brackets + {'$'});
  }

  /** Splicing text without `]` in place of a bracketed mention removes a `]`. */
  lemma MentionSpliceShrinks(text: string, p: nat, n: nat, inside: string, rep: string)
    requires 2 <= n && p + n <= |text| && text[p] == '[' && text[p + n - 1] == ']'
    requires inside == text[p + 1..p + n - 1] && NoneOf(inside, {']'} + JsLineTerminators)
    requires NoneOf(rep, {']'})
    ensures CloseBrackets(Splice(text, p, n, rep)) < CloseBrackets(text)
  {
    BracketedSlice(text, p, n, inside);
    NoneOfSubset(inside, {']'} + JsLineTerminators, {']'});
    BracketSpliceShrinks(text, p, n, inside, rep);
  }

  lemma SliceAround(text: string, p: nat, n: nat, mid: string)
    requires p + n <= |text| && text[p..p + n] == mid
    ensures text == text[..p] + mid + text[p + n..]
  {
    assert text == text[..p] + text[p..p + n] + text[p + n..];
  }

  lemma BracketSpliceShrinks(text: string, p: nat, n: nat, inside: string, rep: string)
    requires p + n <= |text| && text[p..p + n] == "[" + inside + "]"
    requires NoneOf(inside, {']'}) && NoneOf(rep, {']'})
    ensures CloseBrackets(Splice(text, p, n, rep)) < CloseBrackets(text)
  {
    SliceAround(text, p, n, "[" + inside + "]");
    SpliceCloseBrackets(text[..p], inside, text[p + n..], rep);
  }

  /** The `i`-th entity span of the input field around `name`. */
  function InputEntitySpan(i: nat, name: string): string
  {
    InputEntityOpen(i) + name + CloseTag
  }

  /** The `i`-th input entity span around a name without `]` has no `]`. */
  lemma {:induction false} InputEntitySpanClean(i: nat, name: string)
    requires NoneOf(name, {']'})
    ensures NoneOf(InputEntitySpan(i, name), {']'})
  {
    InputEntityOpenClean(i);
    NoneOfSubset(InputEntityOpen(i), Brackets + {'$'}, {']'});
    assert NoneOf(CloseTag, {']'});
    NoneOfAppend(InputEntityOpen(i), name, {']'});
    NoneOfAppend(InputEntityOpen(i) + name, CloseTag, {']'});
  }

  /** One round of the loop of `putTextIntoSpansInput`, as the loop is meant
      to work: the leftmost mention is replaced, at its own position, by the
      `i`-th entity span holding the mention text literally. `None` when no
      mention is left. */
  function InputSpanStep(text: string, i: nat): Option<string>
  {
    match FirstMatch(MentionText, text, true)
    case None => None
    case Some((p, mt)) => Some(Splice(text, p, mt.len, InputEntitySpan(i, mt.out)))
  }

  /** Each round removes a `]`, so the loop ends. */
  lemma InputSpanStepShrinks(text: string, i: nat, next: string)
    requires InputSpanStep(text, i) == Some(next)
    ensures CloseBrackets(next) < CloseBrackets(text)
  {
    var (p, mt) := FirstMatch(MentionText, text, true).value;
    FirstMention(text, true, p, mt);
    EntitySpliceShrinks(text, p, mt.len, mt.out, i);
  }

  lemma EntitySpliceShrinks(text: string, p: nat, n: nat, inside: string, i: nat)
    requires 2 <= n && p + n <= |text| && text[p] == '[' && text[p + n - 1] == ']'
    requires inside == text[p + 1..p + n - 1] && NoneOf(inside, {']'} + JsLineTerminators)
    ensures CloseBrackets(Splice(text, p, n, InputEntitySpan(i, inside))) < CloseBrackets(text)
  {
    NoneOfSubset(inside, {']'} + JsLineTerminators, {']'});
    InputEntitySpanClean(i, inside);
    MentionSpliceShrinks(text, p, n, inside, InputEntitySpan(i, inside));
  }

  /** The loop of `putTextIntoSpansInput` from counter `i` on. */
  function InputSpansFrom(text: string, i: nat): string
    decreases CloseBrackets(text)
  {
    var next := InputSpanStep(text, i);
    if next.None? then text
    else
      InputSpanStepShrinks(text, i, next.value);
      InputSpansFrom(next.value, i + 1)
  }

  /** `putTextIntoSpansInput` (corrected: the mention text is inserted
      literally, see `InputSpanStepAsWritten`). The loop mirrors the source's
      `while (match != null)` with its counter `i`. */
  method PutTextIntoSpansInput(text0: string) returns (text: string)
    ensures text == InputSpansFrom(WrapPlainRuns(text0), 0)
  {
    text := WrapPlainRuns(text0);
    var i := 0;
    var next := InputSpanStep(text, i);
    while next.Some?
      invariant next == InputSpanStep(text, i)
      invariant InputSpansFrom(text, i) == InputSpansFrom(WrapPlainRuns(text0), 0)
      decreases CloseBrackets(text)
    {
      InputSpanStepShrinks(text, i, next.value);
      text := next.value;
      i := i + 1;
      next := InputSpanStep(text, i);
    }
  }

  /** One round of the loop of `putTextIntoSpansInput` exactly as written:
      `text.replace(match[0], replStr)` with a string pattern, so a `$` in
      the mention text is read as a substitution pattern (`$&` inserts the
      match itself again). */
  function InputSpanStepAsWritten(text: string, i: nat): Option<string>
  {
    match FirstMatch(MentionText, text, true)
    case None => None
    case Some((p, mt)) => Some(ReplaceMatched(text, p, mt.len, InputEntitySpan(i, mt.out)))
  }

  /** `text.replace(m, rep)` where `m` is the `n` characters of `text` at `p`. */
  function ReplaceMatched(text: string, p: nat, n: nat, rep: string): string
    requires p + n <= |text|
  {
    JsReplaceString(text, text[p..p + n], rep)
  }

  // ---------------------------------------------------------------------
  // removeHtmlInputField
  // ---------------------------------------------------------------------

  /** `/<span>([^<]*?)<\/span>/g` with replacement `$1`. */
  function PlainSpanText(s: string, atStart: bool): Option<Match>
  {
    if !StartsWith(s, PlainOpen) then None
    else match FirstOf(s[|PlainOpen|..], {'<'})
      case None => None
      case Some(b) =>
        var r := |PlainOpen| + b;
        if StartsWith(s[r..], CloseTag) then Some(Match(r + |CloseTag|, s[|PlainOpen|..r])) else None
  }

  /** `removeHtmlInputField`: plain spans give their text, entity spans
      their text in brackets. */
  function RemoveHtmlInputField(text: string): string
  {
    RewriteAll(EntityToBrackets, RewriteAll(PlainSpanText, text, true), true)
  }

  // ---------------------------------------------------------------------
  // getQidQuestion
  // ---------------------------------------------------------------------

  /** `qidsArray[i]` of JavaScript: past the end it is `undefined`, which
      string concatenation spells out. */
  function QidAt(qids: seq<string>, i: nat): string
  {
    if i < |qids| then qids[i] else "undefined"
  }

  /** The loop of `getQidQuestion` from round `i` on: the `i`-th matched
      mention is replaced (first occurrence, `$` patterns interpreted) by the
      `i`-th QID in brackets. */
  function QidLoop(question: string, matches: seq<string>, qids: seq<string>, i: nat): string
    decreases |matches| - i
  {
    if i >= |matches| then question
    else QidLoop(JsReplaceString(question, matches[i], "[" + QidAt(qids, i) + "]"), matches, qids, i + 1)
  }

  /** `getQidQuestion`: every bracketed mention is rewritten into its QID. */
  method GetQidQuestion(question0: string, qids: string) returns (question: string)
    ensures question == QidLoop(question0, AllOutputs(MentionWhole, question0, true), Split(qids, ','), 0)
  {
    var qidsArray := Split(qids, ',');
    var matches := AllOutputs(MentionWhole, question0, true);
    question := question0;
    for i := 0 to |matches|
      invariant QidLoop(question, matches, qidsArray, i) == QidLoop(question0, matches, qidsArray, 0)
    {
      question := JsReplaceString(question, matches[i], "[" + QidAt(qidsArray, i) + "]");
    }
  }

  // ---------------------------------------------------------------------
  // addAlias
  // ---------------------------------------------------------------------

  /** `/\[(.*?)\] $/`: a mention that closes with the `] ` ending the text;
      reports the captured text. */
  function TrailingMention(s: string, atStart: bool): Option<Match>
  {
    if |s| >= 3 && s[0] == '[' && EndsWith(s, "] ") && NoneOf(s[1..|s| - 2], JsLineTerminators) then
      Some(Match(|s|, s[1..|s| - 2]))
    else None
  }

  /** The alias in parentheses and the closing `] `. */
  function AliasTail(alias: string): string
  {
    " <span class=\"alias\">(" + (alias + ")</span>] ")
  }

  /** Replacement text of `addAlias` before `$` substitution:
      ` [$1 <span class="alias">(` alias `)</span>] `. */
  function AliasTemplate(alias: string): string
  {
    " [$1" + AliasTail(alias)
  }

  /** `addAlias`: when the completion was made for an alias, the trailing
      mention shows the alias in parentheses. */
  function AddAlias(completion: string, alias: string): string
  {
    if alias == "" then completion
    else match FirstMatch(TrailingMention, completion, true)
      case None => completion
      case Some((p, mt)) =>
        completion[..p]
        + JsSubstitute(AliasTemplate(alias), completion[p..p + mt.len], completion[..p],
                       completion[p + mt.len..], Some(mt.out))
        + completion[p + mt.len..]
  }
}
