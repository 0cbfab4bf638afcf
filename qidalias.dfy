/** `getQidQuestion` and `addAlias` of static/script.js on a question in the
    flat form `first[name0]after0[name1]after1…`.

    `getQidQuestion` collects the mentions with `/\[.*?\]/g` and then, for
    the `i`-th of them, replaces the first occurrence of its text by the
    `i`-th QID in brackets. On a flat question this rewrites every mention
    into its own QID and keeps the plain text, as long as no QID is the
    name of a mention still to come (the first occurrence would then be an
    earlier, already rewritten mention). `addAlias` shows the alias in a
    trailing mention. */
module QidAlias {
  import opened Strings
  import opened Regex
  import opened Markup
  import opened RoundTrip

  // ---------------------------------------------------------------------
  // The mentions that getQidQuestion finds
  // ---------------------------------------------------------------------

  /** The text of every mention, brackets included, in order. */
  function Wholes(ps: seq<Part>): (r: seq<string>)
    ensures |r| == |ps|
    decreases |ps|
  {
    if ps == [] then [] else ["[" + ps[0].name + "]"] + Wholes(ps[1..])
  }

  lemma MentionWholeAt(name: string, t: string, atStart: bool)
    requires NoneOf(name, {']'} + JsLineTerminators)
    ensures MentionWhole("[" + name + "]" + t, atStart) == Some(Match(|name| + 2, "[" + name + "]"))
  {
    var s := "[" + name + "]" + t;
    assert s[1..] == name + ("]" + t);
    FirstOfAfterClean(name, "]" + t, {']'} + JsLineTerminators);
    assert s[..|name| + 2] == "[" + name + "]";
  }

  lemma PlainNoMention(x: string, y: string, atStart: bool)
    requires NoneOf(x, {'['})
    ensures NoMatchIn(MentionWhole, x, y, atStart)
  {
    forall i | 0 <= i < |x| ensures MentionWhole(x[i..] + y, atStart && i == 0).None? {
      assert (x[i..] + y)[0] == x[i];
    }
  }

  lemma {:induction false} MentionsWholes(ps: seq<Part>, atStart: bool)
    requires CleanParts(ps)
    ensures AllOutputs(MentionWhole, Mentions(ps), atStart) == Wholes(ps)
    decreases |ps|
  {
    if ps != [] {
      var m, a, rest := ps[0].name, ps[0].after, ps[1..];
      CleanHead(ps);
      var y := a + Mentions(rest);
      assert Mentions(ps) == "[" + m + "]" + y;
      MentionWholeAt(m, y, atStart);
      AllOutputsStep(MentionWhole, "[" + m + "]", y, atStart, "[" + m + "]");
      PlainNoMention(a, Mentions(rest), false);
      AllOutputsCopy(MentionWhole, a, Mentions(rest), false);
      MentionsWholes(rest, false);
    }
  }

  /** `question.match(/\[.*?\]/g)` on a flat question lists its mentions. */
  lemma WholesOfFlat(first: string, ps: seq<Part>)
    requires PlainRun(first) && CleanParts(ps)
    ensures AllOutputs(MentionWhole, Flat(first, ps), true) == Wholes(ps)
  {
    PlainNoMention(first, Mentions(ps), true);
    AllOutputsCopy(MentionWhole, first, Mentions(ps), true);
    MentionsWholes(ps, |first| == 0);
  }

  // ---------------------------------------------------------------------
  // Where the first occurrence of a mention is
  // ---------------------------------------------------------------------

  lemma OccursShift(x: string, y: string, pat: string, j: nat)
    requires j >= |x|
    ensures OccursAt(x + y, pat, j) == OccursAt(y, pat, j - |x|)
  {
    if j + |pat| <= |x + y| {
      assert (x + y)[j..j + |pat|] == y[j - |x|..j - |x| + |pat|];
    }
  }

  /** A mention can only start at a `[`. */
  lemma NoOpenNoMention(s: string, name: string, j: nat)
    requires j < |s| && s[j] != '['
    ensures !OccursAt(s, "[" + name + "]", j)
  {
    if j + |name| + 2 <= |s| {
      assert s[j..j + |name| + 2][0] == s[j];
    }
  }

  /** The mention `[q]` is not the start of a different mention `[name]`. */
  lemma OtherMention(q: string, u: string, name: string)
    requires MentionName(q) && MentionName(name) && q != name
    ensures !OccursAt("[" + q + "]" + u, "[" + name + "]", 0)
  {
    var s := "[" + q + "]" + u;
    var pat := "[" + name + "]";
    if |pat| <= |s| {
      if |name| < |q| {
        assert s[..|pat|][1 + |name|] == q[|name|];
        assert pat[1 + |name|] == ']';
      } else if |name| > |q| {
        assert s[..|pat|][1 + |q|] == ']';
        assert pat[1 + |q|] == name[|q|];
      } else {
        assert s[..|pat|][1..1 + |q|] == q;
        assert pat[1..1 + |name|] == name;
      }
    }
  }

  /** Inside `first[q]` a mention `[name]` other than `[q]` does not start. */
  lemma NotInHead(first: string, q: string, rest: string, name: string, j: nat)
    requires PlainRun(first) && MentionName(q) && MentionName(name) && q != name
    requires j < |first| + |q| + 2
    ensures !OccursAt(first + ("[" + q + "]") + rest, "[" + name + "]", j)
  {
    var s := first + ("[" + q + "]") + rest;
    if j < |first| {
      assert s[j] == first[j];
      NoOpenNoMention(s, name, j);
    } else if j == |first| {
      OccursShift(first, "[" + q + "]" + rest, "[" + name + "]", j);
      assert s == first + ("[" + q + "]" + rest);
      OtherMention(q, rest, name);
    } else if j < |first| + |q| + 1 {
      assert s[j] == q[j - |first| - 1];
      NoOpenNoMention(s, name, j);
    } else {
      assert s[j] == ']';
      NoOpenNoMention(s, name, j);
    }
  }

  /** In a flat question whose mentions all differ from `[name]`, followed
      by text `t`, the first occurrence of `[name]` is not before `t`. */
  lemma {:induction false} NoEarlier(first: string, done: seq<Part>, name: string, t: string)
    requires PlainRun(first) && CleanParts(done) && MentionName(name)
    requires forall m :: 0 <= m < |done| ==> done[m].name != name
    ensures forall j :: 0 <= j < |Flat(first, done)| ==> !OccursAt(Flat(first, done) + t, "[" + name + "]", j)
    decreases |done|
  {
    var pat := "[" + name + "]";
    if done == [] {
      forall j | 0 <= j < |Flat(first, done)| ensures !OccursAt(Flat(first, done) + t, pat, j) {
        assert Flat(first, done) == first;
        assert (Flat(first, done) + t)[j] == first[j];
        NoOpenNoMention(Flat(first, done) + t, name, j);
      }
    } else {
      var q, a, rest := done[0].name, done[0].after, done[1..];
      CleanHead(done);
      assert MentionName(q) && q != name;
      forall m | 0 <= m < |rest| ensures rest[m].name != name {
        assert rest[m] == done[m + 1];
      }
      NoEarlier(a, rest, name, t);
      var head := first + ("[" + q + "]");
      var tail := Flat(a, rest) + t;
      assert Mentions(done) == "[" + (q + ("]" + Flat(a, rest)));
      assert Flat(first, done) + t == head + tail;
      assert |Flat(first, done)| == |head| + |Flat(a, rest)|;
      forall j | 0 <= j < |Flat(first, done)| ensures !OccursAt(head + tail, pat, j) {
        if j < |head| {
          NotInHead(first, q, tail, name, j);
        } else {
          OccursShift(head, tail, pat, j);
        }
      }
    }
  }

  /** `question.replace(mention, "[" + qid + "]")` where the mention first
      occurs right after `d`. */
  lemma ReplaceMention(d: string, name: string, rest: string, q: string)
    requires forall j :: 0 <= j < |d| ==> !OccursAt(d + ("[" + name + "]" + rest), "[" + name + "]", j)
    requires NoneOf(q, {'$'})
    ensures JsReplaceString(d + ("[" + name + "]" + rest), "[" + name + "]", "[" + q + "]")
            == d + ("[" + q + "]" + rest)
  {
    var pat := "[" + name + "]";
    var s := d + (pat + rest);
    assert s[|d|..|d| + |pat|] == pat;
    assert OccursAt(s, pat, |d|);
    var p := IndexOf(s, pat).value;
    assert p == |d|;
    assert s[..p] == d && s[p + |pat|..] == rest;
    NoneOfAppend("[", q, {'$'});
    NoneOfAppend("[" + q, "]", {'$'});
    JsSubstituteLiteral("[" + q + "]", pat, d, rest, None);
  }

  // ---------------------------------------------------------------------
  // The loop of getQidQuestion
  // ---------------------------------------------------------------------

  /** QIDs that the loop inserts as they are: no bracket, no `<`, no line
      terminator and no `$`. */
  predicate UsableQids(qids: seq<string>)
  {
    forall j :: 0 <= j < |qids| ==> MentionName(qids[j]) && NoneOf(qids[j], {'$'})
  }

  /** `name` is none of the texts the loop can insert. */
  predicate NotAQid(qids: seq<string>, name: string)
  {
    name !in qids && name != "undefined"
  }

  lemma QidAtUsable(qids: seq<string>, i: nat, name: string)
    requires UsableQids(qids) && NotAQid(qids, name)
    ensures MentionName(QidAt(qids, i)) && NoneOf(QidAt(qids, i), {'$'}) && QidAt(qids, i) != name
  {
    if i >= |qids| {
      assert MentionName("undefined");
    }
  }

  /** The mentions of `ps`, the `k`-th one now written as QID number `i + k`. */
  function Renamed(ps: seq<Part>, qids: seq<string>, i: nat): (r: seq<Part>)
    ensures |r| == |ps|
    ensures forall k :: 0 <= k < |ps| ==> r[k].after == ps[k].after
    decreases |ps|
  {
    if ps == [] then [] else [Part(QidAt(qids, i), ps[0].after)] + Renamed(ps[1..], qids, i + 1)
  }

  lemma MentionsAppend(xs: seq<Part>, ys: seq<Part>)
    ensures Mentions(xs + ys) == Mentions(xs) + Mentions(ys)
    decreases |xs|
  {
    if xs != [] {
      assert (xs + ys)[1..] == xs[1..] + ys;
      MentionsAppend(xs[1..], ys);
    } else {
      assert xs + ys == ys;
    }
  }

  lemma MentionsCons(p: Part, rest: seq<Part>)
    ensures Mentions([p] + rest) == "[" + p.name + "]" + (p.after + Mentions(rest))
  {
    assert ([p] + rest)[1..] == rest;
  }

  /** The flat form grows at its end by one mention. */
  lemma FlatSnoc(first: string, done: seq<Part>, x: Part)
    ensures Flat(first, done + [x]) == Flat(first, done) + ("[" + x.name + "]" + x.after)
  {
    MentionsAppend(done, [x]);
    var none: seq<Part> := [];
    MentionsCons(x, none);
    assert [x] + none == [x];
  }

  /** One round: the done part grows by the rewritten mention. */
  lemma QidRound(first: string, done: seq<Part>, p: Part, rest: seq<Part>, q: string)
    requires PlainRun(first) && CleanParts(done) && MentionName(p.name) && NoneOf(q, {'$'})
    requires forall m :: 0 <= m < |done| ==> done[m].name != p.name
    ensures JsReplaceString(Flat(first, done) + Mentions([p] + rest), "[" + p.name + "]", "[" + q + "]")
            == Flat(first, done + [Part(q, p.after)]) + Mentions(rest)
  {
    var after := p.after + Mentions(rest);
    MentionsCons(p, rest);
    NoEarlier(first, done, p.name, "[" + p.name + "]" + after);
    ReplaceMention(Flat(first, done), p.name, after, q);
    FlatSnoc(first, done, Part(q, p.after));
  }

  /** What the rounds need: clean text and QIDs, mention names that are no
      QID, and rewritten mentions that differ from the mentions left. */
  predicate RoundsReady(first: string, done: seq<Part>, ps: seq<Part>, qids: seq<string>)
  {
    PlainRun(first) && CleanParts(done) && CleanParts(ps) && UsableQids(qids)
    && (forall k :: 0 <= k < |ps| ==> NotAQid(qids, ps[k].name))
    && (forall m, k :: 0 <= m < |done| && 0 <= k < |ps| ==> done[m].name != ps[k].name)
  }

  /** Rewriting the first mention left keeps the rounds ready. */
  lemma RoundKeeps(first: string, done: seq<Part>, ps: seq<Part>, qids: seq<string>, i: nat)
    requires ps != [] && RoundsReady(first, done, ps, qids)
    ensures RoundsReady(first, done + [Part(QidAt(qids, i), ps[0].after)], ps[1..], qids)
    ensures NoneOf(QidAt(qids, i), {'$'}) && MentionName(ps[0].name)
    ensures forall m :: 0 <= m < |done| ==> done[m].name != ps[0].name
  {
    var x := Part(QidAt(qids, i), ps[0].after);
    var rest := ps[1..];
    CleanHead(ps);
    QidAtUsable(qids, i, ps[0].name);
    forall j | 0 <= j < |done + [x]| ensures MentionName((done + [x])[j].name) && PlainRun((done + [x])[j].after) {
      if j == |done| {
        assert PlainRun(ps[0].after);
      }
    }
    forall k | 0 <= k < |rest| ensures NotAQid(qids, rest[k].name) {
      assert rest[k] == ps[k + 1];
    }
    forall m, k | 0 <= m < |done + [x]| && 0 <= k < |rest| ensures (done + [x])[m].name != rest[k].name {
      assert rest[k] == ps[k + 1];
      if m == |done| {
        QidAtUsable(qids, i, rest[k].name);
      }
    }
  }

  lemma WholesNext(matches: seq<string>, ps: seq<Part>, i: nat)
    requires ps != [] && |matches| == i + |ps| && matches[i..] == Wholes(ps)
    ensures matches[i] == "[" + ps[0].name + "]"
    ensures |matches| == i + 1 + |ps[1..]| && matches[i + 1..] == Wholes(ps[1..])
  {
    assert matches[i] == matches[i..][0];
    assert matches[i + 1..] == matches[i..][1..];
  }

  lemma RenamedNext(done: seq<Part>, ps: seq<Part>, qids: seq<string>, i: nat)
    requires ps != []
    ensures done + [Part(QidAt(qids, i), ps[0].after)] + Renamed(ps[1..], qids, i + 1) == done + Renamed(ps, qids, i)
  {
  }

  /** The rounds from `i` on, with the rewritten `done` in front of the
      mentions `ps` still to do. */
  lemma {:induction false} QidRounds(first: string, done: seq<Part>, ps: seq<Part>,
                                     matches: seq<string>, qids: seq<string>, i: nat)
    requires RoundsReady(first, done, ps, qids)
    requires |matches| == i + |ps| && matches[i..] == Wholes(ps)
    ensures QidLoop(Flat(first, done) + Mentions(ps), matches, qids, i) == Flat(first, done + Renamed(ps, qids, i))
    decreases |ps|
  {
    if ps == [] {
      assert done + Renamed(ps, qids, i) == done;
    } else {
      var q := QidAt(qids, i);
      assert ps == [ps[0]] + ps[1..];
      WholesNext(matches, ps, i);
      RoundKeeps(first, done, ps, qids, i);
      QidRound(first, done, ps[0], ps[1..], q);
      QidRounds(first, done + [Part(q, ps[0].after)], ps[1..], matches, qids, i + 1);
      RenamedNext(done, ps, qids, i);
    }
  }

  /** `getQidQuestion` on a flat question: the `k`-th mention becomes the
      `k`-th QID in brackets (`undefined` past the last QID) and the plain
      text around the mentions stays as it is. */
  lemma QidQuestionFlat(first: string, ps: seq<Part>, qids: seq<string>)
    requires PlainRun(first) && CleanParts(ps) && UsableQids(qids)
    requires forall k :: 0 <= k < |ps| ==> NotAQid(qids, ps[k].name)
    ensures QidLoop(Flat(first, ps), AllOutputs(MentionWhole, Flat(first, ps), true), qids, 0)
            == Flat(first, Renamed(ps, qids, 0))
  {
    WholesOfFlat(first, ps);
    var none: seq<Part> := [];
    assert Flat(first, none) + Mentions(ps) == Flat(first, ps);
    QidRounds(first, none, ps, Wholes(ps), qids, 0);
    assert none + Renamed(ps, qids, 0) == Renamed(ps, qids, 0);
  }

  // ---------------------------------------------------------------------
  // addAlias
  // ---------------------------------------------------------------------

  /** What `addAlias` puts in place of a trailing `[name] `. */
  function AliasShown(name: string, alias: string): string
  {
    " [" + (name + AliasTail(alias))
  }

  /** `$1` after a literal ` [` and before text without `$`. */
  lemma GroupAfterOpen(rest: string, matched: string, before: string, group: string)
    requires NoneOf(rest, {'$'})
    ensures JsSubstitute(" [$1" + rest, matched, before, [], Some(group)) == " [" + (group + rest)
  {
    JsSubstituteLiteral(rest, matched, before, [], Some(group));
    var t := " [$1" + rest;
    var g := Some(group);
    assert t[0] == ' ' && t[1] == '[' && t[2] == '$' && t[3] == '1';
    assert t[1..][1..] == t[2..] && t[2..][2..] == rest;
    assert JsSubstitute(t[2..], matched, before, [], g) == group + JsSubstitute(rest, matched, before, [], g);
    assert JsSubstitute(t[1..], matched, before, [], g) == "[" + JsSubstitute(t[2..], matched, before, [], g);
  }

  lemma AliasSubstitute(name: string, alias: string, matched: string, before: string)
    requires NoneOf(alias, {'$'})
    ensures JsSubstitute(AliasTemplate(alias), matched, before, [], Some(name)) == AliasShown(name, alias)
  {
    var open := " <span class=\"alias\">(";
    var close := ")</span>] ";
    assert NoneOf(open, {'$'});
    assert NoneOf(close, {'$'});
    NoneOfAppend(alias, close, {'$'});
    NoneOfAppend(open, alias + close, {'$'});
    GroupAfterOpen(AliasTail(alias), matched, before, name);
  }

  lemma TrailingAt(name: string, atStart: bool)
    requires MentionName(name)
    ensures TrailingMention("[" + name + "] ", atStart) == Some(Match(|name| + 3, name))
  {
    var y := "[" + name + "] ";
    assert y[|y| - 2..] == "] ";
    assert y[1..|y| - 2] == name;
    NoneOfSubset(name, Unsafe + JsLineTerminators, JsLineTerminators);
  }

  /** `addAlias` on a completion that ends with a mention: the mention shows
      the alias in parentheses (after an extra space, as the replacement
      text starts with one). */
  lemma AddAliasTrailing(pre: string, name: string, alias: string)
    requires PlainRun(pre) && MentionName(name) && alias != "" && NoneOf(alias, {'$'})
    ensures AddAlias(pre + ("[" + name + "] "), alias) == pre + AliasShown(name, alias)
  {
    var y := "[" + name + "] ";
    var s := pre + y;
    TrailingAt(name, |pre| == 0);
    forall i | 0 <= i < |pre| ensures TrailingMention(pre[i..] + y, true && i == 0).None? {
      assert (pre[i..] + y)[0] == pre[i];
    }
    FirstMatchCopy(TrailingMention, pre, y, true);
    assert FirstMatch(TrailingMention, y, |pre| == 0) == Some((0, Match(|y|, name)));
    assert s[..|pre|] == pre && s[|pre|..|pre| + |y|] == y && s[|pre| + |y|..] == [];
    AliasSubstitute(name, alias, y, pre);
  }

  /** `addAlias` changes only a completion that ends with `] `, and only
      for a non-empty alias. */
  lemma AddAliasOnlyTrailing(completion: string, alias: string)
    ensures AddAlias(completion, alias) != completion ==> alias != "" && EndsWith(completion, "] ")
  {
    FirstMatchFound(TrailingMention, completion, true);
    if alias != "" && FirstMatch(TrailingMention, completion, true).Some? {
      var p := FirstMatch(TrailingMention, completion, true).value.0;
      var u := completion[p..];
      assert EndsWith(u, "] ");
      assert completion[|completion| - 2..] == u[|u| - 2..];
    }
  }
}
