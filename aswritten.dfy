/** The loop of `putTextIntoSpansInput` (static/script.js) as it is written,
    next to the corrected loop `Markup.InputSpansFrom`. The written loop
    replaces `match[0]` with `String.prototype.replace` and a string pattern,
    so `$` in the replacement is a substitution pattern. On every text
    without `$` the two loops take the same steps; a mention whose text is
    `$&` is put back by each step, so the written loop never ends. */
module AsWritten {
  import opened Strings
  import opened Regex
  import opened Markup
  import opened RoundTrip

  // ---------------------------------------------------------------------
  // Where the written step finds its string pattern
  // ---------------------------------------------------------------------

  /** `indexOf` finds `pat` at `p` when it occurs there and nowhere before. */
  lemma IndexOfIs(s: string, pat: string, p: nat)
    requires OccursAt(s, pat, p)
    requires forall j :: 0 <= j < p ==> !OccursAt(s, pat, j)
    ensures IndexOf(s, pat) == Some(p)
  {
  }

  /** A copy of a mention is itself a mention. */
  lemma CopyIsMention(s: string, j: nat, name: string, atStart: bool)
    requires NoneOf(name, {']'} + JsLineTerminators)
    requires OccursAt(s, "[" + name + "]", j)
    ensures MentionText(s[j..], atStart).Some?
  {
    var n := |name| + 2;
    assert s[j..] == s[j..j + n] + s[j + n..];
    MentionMatch(name, s[j + n..], atStart);
  }

  /** A mention text found where no earlier mention starts is found there by `indexOf`. */
  lemma IndexOfMention(text: string, p: nat, name: string)
    requires NoneOf(name, {']'} + JsLineTerminators)
    requires OccursAt(text, "[" + name + "]", p)
    requires forall j :: 0 <= j < p ==> MentionText(text[j..], j == 0).None?
    ensures IndexOf(text, "[" + name + "]") == Some(p)
  {
    forall j | 0 <= j < p ensures !OccursAt(text, "[" + name + "]", j) {
      if OccursAt(text, "[" + name + "]", j) {
        CopyIsMention(text, j, name, j == 0);
      }
    }
    IndexOfIs(text, "[" + name + "]", p);
  }

  /** `replace` with the text of a mention that no earlier mention precedes
      substitutes at that mention. */
  lemma ReplaceFirstCopy(text: string, p: nat, n: nat, name: string, rep: string)
    requires 2 <= n && p + n <= |text| && text[p] == '[' && text[p + n - 1] == ']'
    requires name == text[p + 1..p + n - 1] && NoneOf(name, {']'} + JsLineTerminators)
    requires forall j :: 0 <= j < p ==> MentionText(text[j..], j == 0).None?
    ensures JsReplaceString(text, text[p..p + n], rep)
            == text[..p] + JsSubstitute(rep, "[" + name + "]", text[..p], text[p + n..], None) + text[p + n..]
  {
    BracketedSlice(text, p, n, name);
    IndexOfMention(text, p, name);
  }

  // ---------------------------------------------------------------------
  // Agreement on text without `$`
  // ---------------------------------------------------------------------

  lemma InputEntitySpanNoDollar(i: nat, name: string)
    requires NoneOf(name, {'$'})
    ensures NoneOf(InputEntitySpan(i, name), {'$'})
  {
    InputEntityOpenClean(i);
    NoneOfSubset(InputEntityOpen(i), Brackets + {'$'}, {'$'});
    assert NoneOf(CloseTag, {'$'});
    NoneOfAppend(InputEntityOpen(i), name, {'$'});
    NoneOfAppend(InputEntityOpen(i) + name, CloseTag, {'$'});
  }

  lemma NoneOfSlice(s: string, a: nat, b: nat, cs: set<char>)
    requires a <= b <= |s| && NoneOf(s, cs)
    ensures NoneOf(s[a..b], cs)
  {
    forall k | 0 <= k < b - a ensures s[a..b][k] !in cs {
      assert s[a..b][k] == s[a + k];
    }
  }

  lemma ReplaceAgrees(text: string, p: nat, n: nat, name: string, i: nat)
    requires 2 <= n && p + n <= |text| && text[p] == '[' && text[p + n - 1] == ']'
    requires name == text[p + 1..p + n - 1] && NoneOf(name, {']'} + JsLineTerminators)
    requires forall j :: 0 <= j < p ==> MentionText(text[j..], j == 0).None?
    requires NoneOf(text, {'$'})
    ensures ReplaceMatched(text, p, n, InputEntitySpan(i, name)) == Splice(text, p, n, InputEntitySpan(i, name))
  {
    var rep := InputEntitySpan(i, name);
    ReplaceFirstCopy(text, p, n, name, rep);
    SpanLiteral(text, p, n, name, i);
    assert Splice(text, p, n, rep) == text[..p] + rep + text[p + n..];
  }

  /** The entity span for a name taken from text without `$` is inserted literally. */
  lemma SpanLiteral(text: string, p: nat, n: nat, name: string, i: nat)
    requires 2 <= n && p + n <= |text| && name == text[p + 1..p + n - 1]
    requires NoneOf(text, {'$'})
    ensures JsSubstitute(InputEntitySpan(i, name), "[" + name + "]", text[..p], text[p + n..], None)
            == InputEntitySpan(i, name)
  {
    NoneOfSlice(text, p + 1, p + n - 1, {'$'});
    InputEntitySpanNoDollar(i, name);
    JsSubstituteLiteral(InputEntitySpan(i, name), "[" + name + "]", text[..p], text[p + n..], None);
  }

  /** Without `$` in the text the written step is the corrected one. */
  lemma StepAgrees(text: string, i: nat)
    requires NoneOf(text, {'$'})
    ensures InputSpanStepAsWritten(text, i) == InputSpanStep(text, i)
  {
    match FirstMatch(MentionText, text, true) {
      case None =>
      case Some((p, mt)) =>
        FirstMention(text, true, p, mt);
        FirstMatchLeftmost(MentionText, text, true);
        ReplaceAgrees(text, p, mt.len, mt.out, i);
    }
  }

  // ---------------------------------------------------------------------
  // A mention `[$&]`
  // ---------------------------------------------------------------------

  /** Text without `$` goes through the substitution unchanged. */
  lemma {:induction false} SubstituteAfterLiteral(x: string, rest: string, m: string, b: string, a: string)
    requires NoneOf(x, {'$'})
    ensures JsSubstitute(x + rest, m, b, a, None) == x + JsSubstitute(rest, m, b, a, None)
    decreases |x|
  {
    if x != [] {
      assert (x + rest)[0] == x[0] && (x + rest)[1..] == x[1..] + rest;
      SubstituteAfterLiteral(x[1..], rest, m, b, a);
      assert x == [x[0]] + x[1..];
    } else {
      assert x + rest == rest;
    }
  }

  /** In the entity span for the name `$&`, `$&` stands for the whole match. */
  lemma SubstituteDollarSpan(i: nat, m: string, b: string, a: string)
    ensures JsSubstitute(InputEntitySpan(i, "$&"), m, b, a, None) == InputEntityOpen(i) + (m + CloseTag)
  {
    InputEntityOpenClean(i);
    NoneOfSubset(InputEntityOpen(i), Brackets + {'$'}, {'$'});
    assert InputEntitySpan(i, "$&") == InputEntityOpen(i) + ("$&" + CloseTag);
    SubstituteAfterLiteral(InputEntityOpen(i), "$&" + CloseTag, m, b, a);
    DollarAmpersandClose(m, b, a);
  }

  /** `$&` followed by a closing tag: the match, then the tag. */
  lemma DollarAmpersandClose(m: string, b: string, a: string)
    ensures JsSubstitute("$&" + CloseTag, m, b, a, None) == m + CloseTag
  {
    var t := "$&" + CloseTag;
    assert t[0] == '$' && t[1] == '&' && t[2..] == CloseTag;
    assert NoneOf(CloseTag, {'$'});
    JsSubstituteLiteral(CloseTag, m, b, a, None);
  }

  /** The text of a mention `[$&]` after a prefix without `[`. */
  function DollarText(pre: string, post: string): string
  {
    pre + ("[" + ("$&" + ("]" + post)))
  }

  /** `indexOf` finds a pattern that starts with `[` right after a prefix without `[`. */
  lemma IndexOfAfterClean(pre: string, mid: string, post: string)
    requires NoneOf(pre, {'['}) && |mid| > 0 && mid[0] == '['
    ensures IndexOf(pre + mid + post, mid) == Some(|pre|)
  {
    var s := pre + mid + post;
    assert s[|pre|..|pre| + |mid|] == mid;
    forall j | 0 <= j < |pre| ensures !OccursAt(s, mid, j) {
      assert s[j] == pre[j];
    }
    IndexOfIs(s, mid, |pre|);
  }

  /** `replace` of `[$&]` by its entity span puts `[$&]` back inside the span. */
  lemma DollarReplace(pre: string, post: string, i: nat)
    requires NoneOf(pre, {'['})
    ensures var t := DollarText(pre, post);
            |pre| + 4 <= |t|
            && ReplaceMatched(t, |pre|, 4, InputEntitySpan(i, "$&"))
               == DollarText(pre + InputEntityOpen(i), CloseTag + post)
  {
    var t := DollarText(pre, post);
    var mid := "[" + "$&" + "]";
    Regroup("$&", post, "[", "]");
    assert t == pre + mid + post;
    assert t[|pre|..|pre| + 4] == mid;
    IndexOfAfterClean(pre, mid, post);
    assert t[..|pre|] == pre && t[|pre| + |mid|..] == post;
    SubstituteDollarSpan(i, mid, pre, post);
    DollarShape(pre, InputEntityOpen(i), mid, CloseTag, post);
  }

  /** One written step wraps the mention in an entity span and leaves the
      mention itself in place. */
  lemma DollarStep(pre: string, post: string, i: nat)
    requires NoneOf(pre, {'['})
    ensures InputSpanStepAsWritten(DollarText(pre, post), i)
            == Some(DollarText(pre + InputEntityOpen(i), CloseTag + post))
  {
    Regroup("$&", post, "[", "]");
    MentionFirstAt(pre, "$&", post);
    DollarReplace(pre, post, i);
  }

  lemma DollarShape(pre: string, open: string, mid: string, close: string, post: string)
    requires mid == "[" + "$&" + "]"
    ensures pre + (open + (mid + close)) + post == DollarText(pre + open, close + post)
  {
    Regroup("$&", close + post, "[", "]");
  }

  lemma OpenKeepsClean(pre: string, i: nat)
    requires NoneOf(pre, {'['})
    ensures NoneOf(pre + InputEntityOpen(i), {'['})
  {
    InputEntityOpenClean(i);
    NoneOfSubset(InputEntityOpen(i), Brackets + {'$'}, {'['});
    NoneOfAppend(pre, InputEntityOpen(i), {'['});
  }

  /** The entity openings the first `k` rounds from counter `i` add. */
  function Opens(i: nat, k: nat): string
    decreases k
  {
    if k == 0 then [] else Opens(i, k - 1) + InputEntityOpen(i + k - 1)
  }

  /** The closing tags the first `k` rounds add. */
  function Closes(k: nat): string
  {
    if k == 0 then [] else CloseTag + Closes(k - 1)
  }

  /** The text after `k` written rounds on `DollarText(pre, post)`. */
  function DollarRound(pre: string, post: string, i: nat, k: nat): string
  {
    DollarText(pre + Opens(i, k), Closes(k) + post)
  }

  lemma {:induction false} OpensClean(i: nat, k: nat)
    ensures NoneOf(Opens(i, k), {'['})
    decreases k
  {
    if k > 0 {
      OpensClean(i, k - 1);
      OpenKeepsClean(Opens(i, k - 1), i + k - 1);
      OpensSnoc(i, k - 1);
    }
  }

  /** Round `k + 1` is round `k` with one more opening and one more closing tag. */
  lemma RoundShape(pre: string, post: string, i: nat, k: nat)
    ensures DollarRound(pre, post, i, k + 1) == DollarText(pre + Opens(i, k) + InputEntityOpen(i + k), CloseTag + (Closes(k) + post))
  {
    OpensSnoc(i, k);
    ClosesCons(k);
    assert DollarRound(pre, post, i, k + 1) == DollarText(pre + Opens(i, k + 1), Closes(k + 1) + post);
    Assoc(pre, Opens(i, k), InputEntityOpen(i + k));
    Assoc(CloseTag, Closes(k), post);
  }

  lemma OpensSnoc(i: nat, k: nat)
    ensures Opens(i, k + 1) == Opens(i, k) + InputEntityOpen(i + k)
  {
  }

  lemma ClosesCons(k: nat)
    ensures Closes(k + 1) == CloseTag + Closes(k)
  {
  }

  lemma Assoc(a: string, b: string, c: string)
    ensures a + (b + c) == a + b + c
  {
  }

  /** Round `k` of the written loop on `[$&]` finds a mention again and
      leads to round `k + 1`: the loop never ends. */
  lemma DollarRoundStep(pre: string, post: string, i: nat, k: nat)
    requires NoneOf(pre, {'['})
    ensures InputSpanStepAsWritten(DollarRound(pre, post, i, k), i + k) == Some(DollarRound(pre, post, i, k + 1))
  {
    OpensClean(i, k);
    NoneOfAppend(pre, Opens(i, k), {'['});
    DollarStep(pre + Opens(i, k), Closes(k) + post, i + k);
    RoundShape(pre, post, i, k);
  }

  /** The question `[$&]`, once its plain runs are wrapped, is round 0 of
      the written loop. */
  lemma DollarQuestionStart()
    ensures DollarRound(Span([]), Span([]), 0, 0) == WrapPlainRuns("[$&]")
  {
    var ps := [Part("$&", [])];
    assert Flat([], ps) == "[$&]";
    assert CleanParts(ps) && PlainRun([]);
    WrapPlainRunsFlat([], ps);
    assert Wrapped([], ps) == DollarText(Span([]), Span([]));
    assert Span([]) + Opens(0, 0) == Span([]) && Closes(0) + Span([]) == Span([]);
  }

  /** On the question `[$&]` every round `k` of the written loop steps to
      round `k + 1`. */
  lemma DollarQuestionRounds(k: nat)
    ensures InputSpanStepAsWritten(DollarRound(Span([]), Span([]), 0, k), k) == Some(DollarRound(Span([]), Span([]), 0, k + 1))
  {
    SpanNoOpen([]);
    DollarRoundStep(Span([]), Span([]), 0, k);
  }

  /** On the question `[$&]` the corrected loop stops with the one entity span. */
  lemma DollarQuestionCorrected()
    ensures InputSpansFrom(WrapPlainRuns("[$&]"), 0) == Marked([], [Part("$&", [])], true)
  {
    var ps := [Part("$&", [])];
    assert Flat([], ps) == "[$&]";
    assert CleanParts(ps) && PlainRun([]);
    InputSpansFlat([], ps);
  }
}
