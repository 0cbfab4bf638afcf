/** Regular expressions of the source, as hand-written matchers.

    A matcher looks at the remaining input `s` (the text from the current
    position to the end) and at whether that position is the start of the
    whole input (only `^` needs it; `$` is the end of `s`). It answers with
    the length of the match and the text that the replacement produces for
    it. The three ways the source uses a regular expression are modelled
    once, for every matcher:
    - `RewriteAll`: `replace` with the `g` flag (JavaScript) and `re.sub`
      (Python): every match, left to right, scanning on after each one;
    - `RewriteFirst`: `replace` without the `g` flag: the leftmost match;
    - `AllOutputs`: `matchAll` / `match` with the `g` flag: the captured
      text of every match, in order. */
module Regex {
  import opened Strings

  datatype Match = Match(len: nat, out: string)

  type Matcher = (string, bool) -> Option<Match>

  /** How much of `s` a match consumes. The matchers of this project never
      report more than `|s|`; a longer report would be read as the rest. */
  function Consumed(mt: Match, s: string): (n: nat)
    ensures n <= |s|
  {
    if mt.len <= |s| then mt.len else |s|
  }

  /** Global replacement. After an empty match the character at the current
      position is copied and scanning goes on one place further, as both
      languages do. */
  function RewriteAll(m: Matcher, s: string, atStart: bool): string
    decreases |s|
  {
    match m(s, atStart)
    case Some(mt) =>
      var n := Consumed(mt, s);
      if n > 0 then mt.out + RewriteAll(m, s[n..], false)
      else if s == [] then mt.out
      else mt.out + [s[0]] + RewriteAll(m, s[1..], false)
    case None =>
      if s == [] then [] else [s[0]] + RewriteAll(m, s[1..], false)
  }

  /** The `out` of every match, in order (with `out` set to the captured group). */
  function AllOutputs(m: Matcher, s: string, atStart: bool): seq<string>
    decreases |s|
  {
    match m(s, atStart)
    case Some(mt) =>
      var n := Consumed(mt, s);
      if n > 0 then [mt.out] + AllOutputs(m, s[n..], false)
      else if s == [] then [mt.out]
      else [mt.out] + AllOutputs(m, s[1..], false)
    case None =>
      if s == [] then [] else AllOutputs(m, s[1..], false)
  }

  /** Position and match of the leftmost match. */
  function FirstMatch(m: Matcher, s: string, atStart: bool): (r: Option<(nat, Match)>)
    decreases |s|
    ensures r.Some? ==> r.value.0 + r.value.1.len <= |s|
  {
    match m(s, atStart)
    case Some(mt) => assert s[0..] == s; Some((0, Match(Consumed(mt, s), mt.out)))
    case None =>
      assert s[0..] == s;
      if s == [] then None
      else
        assert forall j :: 1 <= j <= |s| ==> s[1..][j - 1..] == s[j..];
        match FirstMatch(m, s[1..], false)
        case None => None
        case Some((p, mt)) => Some((p + 1, mt))
  }

  /** The leftmost match is a match of `m` at its position. */
  lemma {:induction false} FirstMatchFound(m: Matcher, s: string, atStart: bool)
    ensures FirstMatch(m, s, atStart).Some? ==>
              var p := FirstMatch(m, s, atStart).value.0;
              m(s[p..], atStart && p == 0).Some?
              && FirstMatch(m, s, atStart).value.1
                 == Match(Consumed(m(s[p..], atStart && p == 0).value, s[p..]), m(s[p..], atStart && p == 0).value.out)
    decreases |s|
  {
    assert s[0..] == s;
    if m(s, atStart).None? && s != [] {
      FirstMatchFound(m, s[1..], false);
      if FirstMatch(m, s[1..], false).Some? {
        var p := FirstMatch(m, s[1..], false).value.0;
        assert s[1..][p..] == s[p + 1..];
      }
    }
  }

  /** `FirstMatchFound` for a known position and match. */
  lemma FirstMatchAt(m: Matcher, s: string, atStart: bool, p: nat, mt: Match)
    requires FirstMatch(m, s, atStart) == Some((p, mt))
    ensures p <= |s| && m(s[p..], atStart && p == 0).Some?
    ensures mt.len == Consumed(m(s[p..], atStart && p == 0).value, s[p..])
    ensures mt.out == m(s[p..], atStart && p == 0).value.out
  {
    FirstMatchFound(m, s, atStart);
  }

  /** No match starts before the leftmost one (anywhere, when there is none). */
  lemma {:induction false} FirstMatchLeftmost(m: Matcher, s: string, atStart: bool)
    ensures FirstMatch(m, s, atStart).Some? ==>
              forall j :: 0 <= j < FirstMatch(m, s, atStart).value.0 ==> m(s[j..], atStart && j == 0).None?
    ensures FirstMatch(m, s, atStart).None? ==>
              forall j :: 0 <= j <= |s| ==> m(s[j..], atStart && j == 0).None?
    decreases |s|
  {
    assert s[0..] == s;
    if m(s, atStart).None? && s != [] {
      FirstMatchLeftmost(m, s[1..], false);
      forall j | 1 <= j <= |s| ensures s[1..][j - 1..] == s[j..] { }
    }
  }

  /** Non-global replacement: the leftmost match only. */
  function RewriteFirst(m: Matcher, s: string, atStart: bool): string
  {
    match FirstMatch(m, s, atStart)
    case None => s
    case Some((p, mt)) => s[..p] + mt.out + s[p + mt.len..]
  }

  /** No match starts anywhere inside `x` (in front of `y`). */
  ghost predicate NoMatchIn(m: Matcher, x: string, y: string, atStart: bool)
  {
    forall i :: 0 <= i < |x| ==> m(x[i..] + y, atStart && i == 0).None?
  }

  /** Text in which no match starts is copied through. */
  lemma {:induction false} RewriteAllCopy(m: Matcher, x: string, y: string, atStart: bool)
    requires NoMatchIn(m, x, y, atStart)
    ensures RewriteAll(m, x + y, atStart) == x + RewriteAll(m, y, atStart && |x| == 0)
    decreases |x|
  {
    if x == [] {
      assert x + y == y;
    } else {
      assert x[0..] == x;
      assert m(x + y, atStart).None?;
      assert (x + y)[1..] == x[1..] + y;
      forall i | 0 <= i < |x[1..]| ensures m(x[1..][i..] + y, false && i == 0).None? {
        assert x[1..][i..] == x[i + 1..];
      }
      RewriteAllCopy(m, x[1..], y, false);
    }
  }

  /** The leftmost match, given where it is, is what `RewriteFirst` replaces. */
  lemma RewriteFirstAt(m: Matcher, s: string, atStart: bool, p: nat, mt: Match)
    requires FirstMatch(m, s, atStart) == Some((p, mt))
    ensures RewriteFirst(m, s, atStart) == s[..p] + mt.out + s[p + mt.len..]
  {
  }

  /** A non-empty match at the front is replaced, and scanning goes on after it. */
  lemma RewriteAllStep(m: Matcher, x: string, y: string, atStart: bool, out: string)
    requires |x| > 0 && m(x + y, atStart) == Some(Match(|x|, out))
    ensures RewriteAll(m, x + y, atStart) == out + RewriteAll(m, y, false)
  {
    assert (x + y)[|x|..] == y;
  }

  /** A character where no match starts is copied. */
  lemma RewriteAllSkip(m: Matcher, c: char, y: string, atStart: bool)
    requires m([c] + y, atStart).None?
    ensures RewriteAll(m, [c] + y, atStart) == [c] + RewriteAll(m, y, false)
  {
    assert ([c] + y)[1..] == y;
  }

  lemma AllOutputsSkip(m: Matcher, c: char, y: string, atStart: bool)
    requires m([c] + y, atStart).None?
    ensures AllOutputs(m, [c] + y, atStart) == AllOutputs(m, y, false)
  {
    assert ([c] + y)[1..] == y;
  }

  lemma {:induction false} AllOutputsCopy(m: Matcher, x: string, y: string, atStart: bool)
    requires NoMatchIn(m, x, y, atStart)
    ensures AllOutputs(m, x + y, atStart) == AllOutputs(m, y, atStart && |x| == 0)
    decreases |x|
  {
    if x == [] {
      assert x + y == y;
    } else {
      assert x[0..] == x;
      assert m(x + y, atStart).None?;
      assert (x + y)[1..] == x[1..] + y;
      forall i | 0 <= i < |x[1..]| ensures m(x[1..][i..] + y, false && i == 0).None? {
        assert x[1..][i..] == x[i + 1..];
      }
      AllOutputsCopy(m, x[1..], y, false);
    }
  }

  lemma AllOutputsStep(m: Matcher, x: string, y: string, atStart: bool, out: string)
    requires |x| > 0 && m(x + y, atStart) == Some(Match(|x|, out))
    ensures AllOutputs(m, x + y, atStart) == [out] + AllOutputs(m, y, false)
  {
    assert (x + y)[|x|..] == y;
  }

  lemma {:induction false} FirstMatchCopy(m: Matcher, x: string, y: string, atStart: bool)
    requires NoMatchIn(m, x, y, atStart)
    ensures FirstMatch(m, x + y, atStart) ==
            match FirstMatch(m, y, atStart && |x| == 0)
            case None => None
            case Some((p, mt)) => Some((|x| + p, mt))
    decreases |x|
  {
    if x == [] {
      assert x + y == y;
      match FirstMatch(m, y, atStart) {
        case None =>
        case Some((p, mt)) =>
      }
    } else {
      assert x[0..] == x;
      assert m(x + y, atStart).None?;
      assert (x + y)[1..] == x[1..] + y;
      forall i | 0 <= i < |x[1..]| ensures m(x[1..][i..] + y, false && i == 0).None? {
        assert x[1..][i..] == x[i + 1..];
      }
      FirstMatchCopy(m, x[1..], y, false);
    }
  }

  /** A matcher whose replacement is never longer than what it consumes. */
  ghost predicate Shrinking(m: Matcher)
  {
    forall t: string, b: bool :: m(t, b).Some? ==> |m(t, b).value.out| <= m(t, b).value.len <= |t|
  }

  /** A matcher whose replacement never holds a character of `cs`. */
  ghost predicate AvoidsChars(m: Matcher, cs: set<char>)
  {
    forall t: string, b: bool :: m(t, b).Some? ==> NoneOf(m(t, b).value.out, cs)
  }

  /** Replacing matches by no longer text never lengthens the input. */
  lemma {:induction false} RewriteAllNotLonger(m: Matcher, s: string, atStart: bool)
    requires Shrinking(m)
    ensures |RewriteAll(m, s, atStart)| <= |s|
    decreases |s|
  {
    match m(s, atStart) {
      case Some(mt) =>
        if mt.len > 0 {
          RewriteAllNotLonger(m, s[mt.len..], false);
        } else if s != [] {
          RewriteAllNotLonger(m, s[1..], false);
        }
      case None =>
        if s != [] {
          RewriteAllNotLonger(m, s[1..], false);
        }
    }
  }

  /** Characters absent from the input and from every replacement stay absent. */
  lemma {:induction false} RewriteAllKeepsAbsent(m: Matcher, s: string, atStart: bool, cs: set<char>)
    requires AvoidsChars(m, cs) && NoneOf(s, cs)
    ensures NoneOf(RewriteAll(m, s, atStart), cs)
    decreases |s|
  {
    match m(s, atStart) {
      case Some(mt) =>
        var n := Consumed(mt, s);
        if n > 0 {
          RewriteAllKeepsAbsent(m, s[n..], false, cs);
          NoneOfAppend(mt.out, RewriteAll(m, s[n..], false), cs);
        } else if s != [] {
          RewriteAllKeepsAbsent(m, s[1..], false, cs);
          NoneOfAppend(mt.out, [s[0]], cs);
          NoneOfAppend(mt.out + [s[0]], RewriteAll(m, s[1..], false), cs);
        }
      case None =>
        if s != [] {
          RewriteAllKeepsAbsent(m, s[1..], false, cs);
          NoneOfAppend([s[0]], RewriteAll(m, s[1..], false), cs);
        }
    }
  }

  /** Nothing to match anywhere: the text is left alone. */
  lemma {:induction false} RewriteAllNoMatch(m: Matcher, s: string, atStart: bool)
    requires NoMatchIn(m, s, [], atStart)
    requires m([], atStart && |s| == 0).None?
    ensures RewriteAll(m, s, atStart) == s
  {
    assert s + [] == s;
    RewriteAllCopy(m, s, [], atStart);
  }
}
