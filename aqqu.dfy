/** aqqu_server.py: the transformers from the answers of the Aqqu question
    answering service and of its completion service into what the page
    shows, and the stripper of entity mentions from a question.

    The JSON objects are records holding only the fields the source reads. */
module Aqqu {
  import opened Strings
  import opened Regex
  import opened Maps

  datatype Answer = Answer(name: string)
  datatype EntityMatch = EntityMatch(mid: string)
  datatype RelationMatch = RelationMatch(relations: seq<string>)
  datatype Candidate = Candidate(answers: seq<Answer>, entityMatches: seq<EntityMatch>,
                                 relationMatches: seq<RelationMatch>)
  datatype Entity = Entity(mid: string, name: string)
  datatype IdentifiedEntity = IdentifiedEntity(entity: Entity)
  /** `candidates` and `parsed_query.identified_entities`. */
  datatype AqquResponse = AqquResponse(candidates: seq<Candidate>, identifiedEntities: seq<IdentifiedEntity>)
  datatype Completion = Completion(completion: string)
  datatype QacResponse = QacResponse(completions: seq<Completion>)

  // ---------------------------------------------------------------------
  // replace_entity_mentions
  // ---------------------------------------------------------------------

  /** Position of the first `c` at or after `from`, unless a newline comes
      first: how far a lazy `.*?` followed by `c` reaches. */
  function FindBefore(s: string, from: nat, c: char): (r: Option<nat>)
    decreases |s| - from
    ensures r.Some? ==> from <= r.value < |s| && s[r.value] == c
    ensures r.Some? ==> forall k :: from <= k < r.value ==> s[k] != c && s[k] != '\n'
  {
    if from >= |s| then None
    else if s[from] == c then Some(from)
    else if s[from] == '\n' then None
    else FindBefore(s, from + 1, c)
  }

  lemma {:induction false} FindBeforeAt(s: string, from: nat, i: nat, c: char)
    requires from <= i < |s| && s[i] == c
    requires forall k :: from <= k < i ==> s[k] != c && s[k] != '\n'
    ensures FindBefore(s, from, c) == Some(i)
    decreases i - from
  {
    if from < i {
      FindBeforeAt(s, from + 1, i, c);
    }
  }

  /** The pattern at the front of `s`. Each lazy `.*?` stops at the first
      character it is followed by; when a newline comes first, no longer
      choice can succeed either, since `.` does not match a newline. */
  function MentionPattern(s: string, atStart: bool): Option<Match>
  {
    if s == [] || s[0] != '[' then None
    else
      match FindBefore(s, 1, '|')
      case None => None
      case Some(a) =>
        match FindBefore(s, a + 1, ':')
        case None => None
        case Some(b) =>
          match FindBefore(s, b + 1, ']')
          case None => None
          case Some(c) => Some(Match(c + 1, s[b + 1..c]))
  }

  /** `replace_entity_mentions`: every `[type|qid:name]` becomes `name`. */
  function ReplaceEntityMentions(question: string): string
  {
    RewriteAll(MentionPattern, question, true)
  }

  /** An entity mention as the completion service writes it. */
  datatype Mention = Mention(kind: string, qid: string, name: string)

  function MentionText(m: Mention): string
  {
    "[" + m.kind + "|" + m.qid + ":" + m.name + "]"
  }

  /** Each part stops before the character that ends it. */
  predicate WellFormedMention(m: Mention)
  {
    NoneOf(m.kind, {'|', '\n'}) && NoneOf(m.qid, {':', '\n'}) && NoneOf(m.name, {']', '\n'})
  }

  /** A question with mentions: each mention is followed by plain text. */
  function Annotated(ps: seq<(Mention, string)>): string
  {
    if ps == [] then [] else MentionText(ps[0].0) + ps[0].1 + Annotated(ps[1..])
  }

  /** The same question with every mention replaced by its name. */
  function NamesOnly(ps: seq<(Mention, string)>): string
  {
    if ps == [] then [] else ps[0].0.name + ps[0].1 + NamesOnly(ps[1..])
  }

  predicate Plain(ps: seq<(Mention, string)>)
  {
    forall k :: 0 <= k < |ps| ==> WellFormedMention(ps[k].0) && NoneOf(ps[k].1, {'['})
  }

  /** A lazy `.*?` over text without `c` or a newline stops at the `c` after it. */
  lemma FindBeforeAfter(pre: string, x: string, c: char, y: string)
    requires NoneOf(x, {c, '\n'})
    ensures FindBefore(pre + x + [c] + y, |pre|, c) == Some(|pre| + |x|)
  {
    var s := pre + x + [c] + y;
    assert forall k :: |pre| <= k < |pre| + |x| ==> s[k] == x[k - |pre|];
    FindBeforeAt(s, |pre|, |pre| + |x|, c);
  }

  /** The pattern matches a well-formed mention exactly, giving its name. */
  lemma MentionPatternOn(m: Mention, rest: string, b: bool)
    requires WellFormedMention(m)
    ensures MentionPattern(MentionText(m) + rest, b) == Some(Match(|MentionText(m)|, m.name))
  {
    var s := MentionText(m) + rest;
    var a, q, n := |m.kind|, |m.qid|, |m.name|;
    KindEnds(m, rest);
    QidEnds(m, rest);
    NameEnds(m, rest);
    MentionPatternAt(s, 1 + a, 2 + a + q, 3 + a + q + n, b);
  }

  lemma KindEnds(m: Mention, rest: string)
    requires NoneOf(m.kind, {'|', '\n'})
    ensures FindBefore(MentionText(m) + rest, 1, '|') == Some(1 + |m.kind|)
  {
    assert MentionText(m) + rest == "[" + m.kind + ['|'] + (m.qid + ":" + m.name + "]" + rest);
    FindBeforeAfter("[", m.kind, '|', m.qid + ":" + m.name + "]" + rest);
  }

  lemma QidEnds(m: Mention, rest: string)
    requires NoneOf(m.qid, {':', '\n'})
    ensures FindBefore(MentionText(m) + rest, 2 + |m.kind|, ':') == Some(2 + |m.kind| + |m.qid|)
  {
    var p2 := "[" + m.kind + "|";
    assert MentionText(m) + rest == p2 + m.qid + [':'] + (m.name + "]" + rest);
    FindBeforeAfter(p2, m.qid, ':', m.name + "]" + rest);
  }

  lemma NameEnds(m: Mention, rest: string)
    requires NoneOf(m.name, {']', '\n'})
    ensures var s, p := MentionText(m) + rest, 3 + |m.kind| + |m.qid|;
      FindBefore(s, p, ']') == Some(p + |m.name|) && s[p..p + |m.name|] == m.name
      && |MentionText(m)| == p + |m.name| + 1 && s[0] == '['
  {
    var p3 := "[" + m.kind + "|" + m.qid + ":";
    var s := MentionText(m) + rest;
    assert s == p3 + m.name + [']'] + rest;
    FindBeforeAfter(p3, m.name, ']', rest);
    assert s[|p3|..|p3| + |m.name|] == m.name;
  }

  lemma MentionPatternAt(s: string, a: nat, q: nat, c: nat, b: bool)
    requires s != [] && s[0] == '['
    requires FindBefore(s, 1, '|') == Some(a) && FindBefore(s, a + 1, ':') == Some(q)
    requires FindBefore(s, q + 1, ']') == Some(c)
    ensures MentionPattern(s, b) == Some(Match(c + 1, s[q + 1..c]))
  {
  }

  /** No match starts in text without `[`. */
  lemma NoMentionIn(x: string, y: string, b: bool)
    requires NoneOf(x, {'['})
    ensures NoMatchIn(MentionPattern, x, y, b)
  {
    forall i | 0 <= i < |x| ensures MentionPattern(x[i..] + y, b && i == 0).None? {
      assert (x[i..] + y)[0] == x[i];
    }
  }

  lemma {:induction false} AnnotatedRewrite(ps: seq<(Mention, string)>, b: bool)
    requires Plain(ps)
    ensures RewriteAll(MentionPattern, Annotated(ps), b) == NamesOnly(ps)
    decreases |ps|
  {
    if ps == [] {
      assert MentionPattern([], b).None?;
    } else {
      var m, after := ps[0].0, ps[0].1;
      var tail := Annotated(ps[1..]);
      assert Annotated(ps) == MentionText(m) + (after + tail);
      MentionPatternOn(m, after + tail, b);
      RewriteAllStep(MentionPattern, MentionText(m), after + tail, b, m.name);
      NoMentionIn(after, tail, false);
      RewriteAllCopy(MentionPattern, after, tail, false);
      assert Plain(ps[1..]) by {
        forall k | 0 <= k < |ps[1..]| ensures WellFormedMention(ps[1..][k].0) && NoneOf(ps[1..][k].1, {'['}) {
          assert ps[1..][k] == ps[k + 1];
        }
      }
      AnnotatedRewrite(ps[1..], false);
      assert RewriteAll(MentionPattern, after + tail, false) == after + NamesOnly(ps[1..]);
      assert NamesOnly(ps) == m.name + (after + NamesOnly(ps[1..]));
    }
  }

  /** Every well-formed mention in a question whose other text has no `[`
      is replaced by its name, and nothing else changes. */
  lemma ReplaceEntityMentionsNames(first: string, ps: seq<(Mention, string)>)
    requires NoneOf(first, {'['}) && Plain(ps)
    ensures ReplaceEntityMentions(first + Annotated(ps)) == first + NamesOnly(ps)
  {
    NoMentionIn(first, Annotated(ps), true);
    RewriteAllCopy(MentionPattern, first, Annotated(ps), true);
    AnnotatedRewrite(ps, |first| == 0);
  }

  /** A question without `[` is returned unchanged. */
  lemma ReplaceEntityMentionsPlain(question: string)
    requires NoneOf(question, {'['})
    ensures ReplaceEntityMentions(question) == question
  {
    ReplaceEntityMentionsNames(question, []);
    assert question + [] == question;
  }

  // ---------------------------------------------------------------------
  // get_answers
  // ---------------------------------------------------------------------

  /** `get_answers`: one list per candidate, in order, of the names of its answers. */
  method GetAnswers(response: AqquResponse) returns (answers: seq<seq<string>>)
    ensures |answers| == |response.candidates|
    ensures forall i :: 0 <= i < |answers| ==>
              |answers[i]| == |response.candidates[i].answers|
              && forall j :: 0 <= j < |answers[i]| ==> answers[i][j] == response.candidates[i].answers[j].name
  {
    var candidates := response.candidates;
    answers := [];
    for i := 0 to |candidates|
      invariant |answers| == i
      invariant forall k :: 0 <= k < i ==>
                  |answers[k]| == |candidates[k].answers|
                  && forall j :: 0 <= j < |answers[k]| ==> answers[k][j] == candidates[k].answers[j].name
    {
      var candAnswers := candidates[i].answers;
      var entNames: seq<string> := [];
      for j := 0 to |candAnswers|
        invariant |entNames| == j
        invariant forall l :: 0 <= l < j ==> entNames[l] == candAnswers[l].name
      {
        entNames := entNames + [candAnswers[j].name];
      }
      answers := answers + [entNames];
    }
  }

  // ---------------------------------------------------------------------
  // get_mid_2_name
  // ---------------------------------------------------------------------

  /** The (MID, name) pair of every identified entity, in order. */
  function MidNamePairs(es: seq<IdentifiedEntity>): (r: seq<(string, string)>)
    ensures |r| == |es|
    ensures forall k :: 0 <= k < |es| ==> r[k] == (es[k].entity.mid, es[k].entity.name)
  {
    if es == [] then [] else MidNamePairs(es[..|es| - 1]) + [(es[|es| - 1].entity.mid, es[|es| - 1].entity.name)]
  }

  /** `get_mid_2_name`: a later entity with the same MID overwrites an earlier one. */
  method GetMid2Name(response: AqquResponse) returns (midToName: map<string, string>)
    ensures midToName == LastWins(MidNamePairs(response.identifiedEntities))
  {
    var identified := response.identifiedEntities;
    midToName := map[];
    for i := 0 to |identified|
      invariant midToName == LastWins(MidNamePairs(identified[..i]))
    {
      var mid := identified[i].entity.mid;
      var name := identified[i].entity.name;
      assert identified[..i + 1][..i] == identified[..i];
      assert MidNamePairs(identified[..i + 1]) == MidNamePairs(identified[..i]) + [(mid, name)];
      LastWinsSnoc(MidNamePairs(identified[..i]), mid, name);
      midToName := midToName[mid := name];
    }
    assert identified[..|identified|] == identified;
  }

  /** The name an entity is shown under: the last name given for its MID,
      or the MID itself when none is. */
  lemma DisplayNameIsLast(response: AqquResponse, i: nat)
    requires i < |response.identifiedEntities|
    requires forall j :: i < j < |response.identifiedEntities| ==>
               response.identifiedEntities[j].entity.mid != response.identifiedEntities[i].entity.mid
    ensures var e := response.identifiedEntities[i].entity;
            GetOr(LastWins(MidNamePairs(response.identifiedEntities)), e.mid, e.mid) == e.name
  {
    var pairs := MidNamePairs(response.identifiedEntities);
    LastWinsValue(pairs, i);
  }

  /** A MID no identified entity has is shown as itself. */
  lemma DisplayNameFallback(response: AqquResponse, mid: string)
    requires forall j :: 0 <= j < |response.identifiedEntities| ==> response.identifiedEntities[j].entity.mid != mid
    ensures GetOr(LastWins(MidNamePairs(response.identifiedEntities)), mid, mid) == mid
  {
    var pairs := MidNamePairs(response.identifiedEntities);
    LastWinsKeys(pairs);
    assert mid !in LastWins(pairs);
  }

  // ---------------------------------------------------------------------
  // get_interpretation_strings
  // ---------------------------------------------------------------------

  /** Python's `s.rfind(".")`: the position of the last dot, `-1` without one. */
  function LastDot(s: string): (r: int)
    ensures -1 <= r < |s|
    ensures r >= 0 ==> s[r] == '.'
    ensures forall k :: r < k < |s| ==> s[k] != '.'
  {
    if s == [] then -1 else if s[|s| - 1] == '.' then |s| - 1 else LastDot(s[..|s| - 1])
  }

  /** `rel[rel.rfind(".") + 1:]`: the part after the last dot, all of `rel`
      without a dot. That it is a suffix of `rel` is `AfterLastDotSuffix`. */
  function AfterLastDot(rel: string): (r: string)
    ensures |r| <= |rel|
    ensures NoneOf(r, {'.'})
    ensures |r| < |rel| ==> rel[|rel| - |r| - 1] == '.'
  {
    var start: nat := LastDot(rel) + 1;
    assert forall k :: start <= k < |rel| ==> rel[k] != '.';
    rel[start..]
  }

  /** What is kept is the end of `rel`: everything after its last dot. */
  lemma AfterLastDotSuffix(rel: string)
    ensures EndsWith(rel, AfterLastDot(rel))
    ensures AfterLastDot(rel) == rel || rel[..|rel| - |AfterLastDot(rel)|] == rel[..LastDot(rel)] + "."
  {
    var start: nat := LastDot(rel) + 1;
    if start > 0 {
      assert rel[..start] == rel[..LastDot(rel)] + ".";
    }
  }

  /** A relation as shown: the name after the last dot, with spaces for
      underscores. It holds neither a dot nor an underscore. */
  function RelationName(rel: string): (r: string)
    ensures NoneOf(r, {'.', '_'})
  {
    ReplaceChar(AfterLastDot(rel), '_', ' ')
  }

  /** The body of the innermost loop: the prefix up to the last dot is
      cut off and underscores become spaces. */
  method ShowRelation(rel0: string) returns (shown: string)
    ensures shown == RelationName(rel0)
  {
    var rel := rel0;
    rel := rel[LastDot(rel) + 1..];
    shown := ReplaceChar(rel, '_', ' ');
  }

  /** The names the entity matches are shown under. */
  function EntityNames(ems: seq<EntityMatch>, midToName: map<string, string>): (r: seq<string>)
    ensures |r| == |ems|
    ensures forall k :: 0 <= k < |r| ==> r[k] == GetOr(midToName, ems[k].mid, ems[k].mid)
  {
    if ems == [] then [] else [GetOr(midToName, ems[0].mid, ems[0].mid)] + EntityNames(ems[1..], midToName)
  }

  /** The shown name of every relation. */
  function RelationNames(rels: seq<string>): (r: seq<string>)
    ensures |r| == |rels|
    ensures forall k :: 0 <= k < |r| ==> r[k] == RelationName(rels[k])
  {
    MapStrings(RelationName, rels)
  }

  /** Every relation group, shown. */
  function RelationGroups(rms: seq<RelationMatch>): (r: seq<string>)
    ensures |r| == |rms|
    ensures forall k :: 0 <= k < |r| ==> r[k] == Join(RelationNames(rms[k].relations), " -> ")
  {
    if rms == [] then [] else [Join(RelationNames(rms[0].relations), " -> ")] + RelationGroups(rms[1..])
  }

  /** The interpretation of a candidate: its entities joined by `" - "`, a
      comma, its relation groups (relations joined by `" -> "`) joined by
      `" - "`, a colon. */
  function Interpretation(c: Candidate, midToName: map<string, string>): string
  {
    Join(EntityNames(c.entityMatches, midToName), " - ") + ", " + Join(RelationGroups(c.relationMatches), " - ") + ":"
  }

  /** `get_interpretation_strings`: one interpretation per candidate, in order,
      with the entity names of `get_mid_2_name`. */
  method GetInterpretationStrings(response: AqquResponse) returns (strs: seq<string>)
    ensures |strs| == |response.candidates|
    ensures forall i :: 0 <= i < |strs| ==>
              strs[i] == Interpretation(response.candidates[i], LastWins(MidNamePairs(response.identifiedEntities)))
  {
    var candidates := response.candidates;
    var midToName := GetMid2Name(response);
    strs := [];
    for i := 0 to |candidates|
      invariant |strs| == i
      invariant forall k :: 0 <= k < i ==> strs[k] == Interpretation(candidates[k], midToName)
    {
      var recEntsStr := EntitiesString(candidates[i], midToName);
      var recRelsStr := RelationsString(candidates[i]);
      strs := strs + [recEntsStr + ", " + recRelsStr + ":"];
    }
  }

  /** The entity loop of `get_interpretation_strings`. */
  method EntitiesString(cand: Candidate, midToName: map<string, string>) returns (s: string)
    ensures s == Join(EntityNames(cand.entityMatches, midToName), " - ")
  {
    var recEnts := cand.entityMatches;
    ghost var names := EntityNames(recEnts, midToName);
    s := "";
    for i := 0 to |recEnts|
      invariant s == JoinedSoFar(names, i, " - ")
    {
      var mid := recEnts[i].mid;
      var name := GetOr(midToName, mid, mid);
      JoinedSoFarStep(names, i, " - ");
      s := s + name;
      if i < |recEnts| - 1 {
        s := s + " - ";
      }
    }
    JoinedSoFarDone(names, " - ");
  }

  /** The relation loops of `get_interpretation_strings`. */
  method RelationsString(cand: Candidate) returns (s: string)
    ensures s == Join(RelationGroups(cand.relationMatches), " - ")
  {
    var recRels := cand.relationMatches;
    ghost var groups := RelationGroups(recRels);
    s := "";
    for i := 0 to |recRels|
      invariant s == JoinedSoFar(groups, i, " - ")
    {
      var single := RelationGroupString(recRels[i].relations);
      JoinedSoFarStep(groups, i, " - ");
      s := s + single;
      if i < |recRels| - 1 {
        s := s + " - ";
      }
    }
    JoinedSoFarDone(groups, " - ");
  }

  /** The innermost loop: one relation group. */
  method RelationGroupString(currRels: seq<string>) returns (single: string)
    ensures single == Join(RelationNames(currRels), " -> ")
  {
    ghost var names := RelationNames(currRels);
    single := "";
    for j := 0 to |currRels|
      invariant single == JoinedSoFar(names, j, " -> ")
    {
      var shown := ShowRelation(currRels[j]);
      assert shown == names[j];
      JoinedSoFarStep(names, j, " -> ");
      single := single + shown;
      if j < |currRels| - 1 {
        single := single + " -> ";
      } else {
        assert single == single + [];
      }
    }
    JoinedSoFarDone(names, " -> ");
  }

  // ---------------------------------------------------------------------
  // get_completions
  // ---------------------------------------------------------------------

  /** `get_completions`: the `completion` field of every completion, in order. */
  function GetCompletions(response: QacResponse): (r: seq<string>)
    ensures |r| == |response.completions|
    ensures forall k :: 0 <= k < |r| ==> r[k] == response.completions[k].completion
  {
    CompletionTexts(response.completions)
  }

  function CompletionTexts(cs: seq<Completion>): (r: seq<string>)
    ensures |r| == |cs|
    ensures forall k :: 0 <= k < |r| ==> r[k] == cs[k].completion
  {
    if cs == [] then [] else [cs[0].completion] + CompletionTexts(cs[1..])
  }
}
