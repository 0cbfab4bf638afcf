/** String helpers shared by the JavaScript and the Python parts of the model.
    Strings are `seq<char>`; every function here is total and says in its
    contract what it computes. */
module Strings {

  datatype Option<T> = None | Some(value: T)

  /** `pat` occurs in `s` at position `j`. */
  predicate OccursAt(s: string, pat: string, j: nat)
  {
    j + |pat| <= |s| && s[j..j + |pat|] == pat
  }

  predicate StartsWith(s: string, pat: string)
  {
    |pat| <= |s| && s[..|pat|] == pat
  }

  predicate EndsWith(s: string, pat: string)
  {
    |pat| <= |s| && s[|s| - |pat|..] == pat
  }

  /** Position of the first occurrence of `pat` in `s` at or after `from`
      (JavaScript `indexOf`, Python `find`). */
  function IndexOfFrom(s: string, pat: string, from: nat): (r: Option<nat>)
    decreases |s| - from
    ensures r.Some? ==> from <= r.value && OccursAt(s, pat, r.value)
    ensures r.Some? ==> forall j :: from <= j < r.value ==> !OccursAt(s, pat, j)
    ensures r.None? ==> forall j :: from <= j ==> !OccursAt(s, pat, j)
  {
    if from + |pat| > |s| then None
    else if s[from..from + |pat|] == pat then Some(from)
    else IndexOfFrom(s, pat, from + 1)
  }

  function IndexOf(s: string, pat: string): (r: Option<nat>)
    ensures r.Some? ==> OccursAt(s, pat, r.value)
    ensures r.Some? ==> forall j :: 0 <= j < r.value ==> !OccursAt(s, pat, j)
    ensures r.None? ==> forall j :: 0 <= j ==> !OccursAt(s, pat, j)
  {
    IndexOfFrom(s, pat, 0)
  }

  /** Index of the first character of `s` that belongs to `cs`. */
  function FirstOf(s: string, cs: set<char>): (r: Option<nat>)
    ensures r.Some? ==> r.value < |s| && s[r.value] in cs
  {
    if s == [] then None
    else if s[0] in cs then Some(0)
    else match FirstOf(s[1..], cs)
      case None => None
      case Some(k) => Some(k + 1)
  }

  /** Nothing of `cs` comes before the one `FirstOf` finds (nothing at all
      when it finds none). */
  lemma {:induction false} FirstOfLeftmost(s: string, cs: set<char>)
    ensures FirstOf(s, cs).Some? ==> NoneOf(s[..FirstOf(s, cs).value], cs)
    ensures FirstOf(s, cs).None? ==> NoneOf(s, cs)
  {
    if s != [] && s[0] !in cs {
      FirstOfLeftmost(s[1..], cs);
      if FirstOf(s, cs).Some? {
        var k := FirstOf(s[1..], cs).value;
        assert s[..k + 1] == [s[0]] + s[1..][..k];
      } else {
        assert s == [s[0]] + s[1..];
      }
    }
  }

  predicate NoneOf(s: string, cs: set<char>)
  {
    forall j :: 0 <= j < |s| ==> s[j] !in cs
  }

  /** JavaScript's `str.replace(pattern, "")`-style and Python's
      `str.replace` with a plain string pattern, first occurrence only:
      the replacement is inserted literally. */
  function ReplaceFirst(s: string, pat: string, rep: string): (r: string)
    ensures IndexOf(s, pat).None? ==> r == s
    ensures IndexOf(s, pat).Some? ==>
              var p := IndexOf(s, pat).value;
              r == s[..p] + rep + s[p + |pat|..]
  {
    match IndexOf(s, pat)
    case None => s
    case Some(p) => s[..p] + rep + s[p + |pat|..]
  }

  /** `s.slice(a, b)` for non-negative `a` and `b`: both are clamped to the
      length, and an end before the start gives the empty string. */
  function JsSlice(s: string, a: nat, b: nat): (r: string)
    ensures a <= b <= |s| ==> r == s[a..b]
    ensures b <= a ==> r == []
  {
    var from := if a < |s| then a else |s|;
    var to := if b < |s| then b else |s|;
    if from < to then s[from..to] else []
  }

  /** `s` with its `n` characters from `p` on replaced by `rep`. */
  function Splice(s: string, p: nat, n: nat, rep: string): string
    requires p + n <= |s|
  {
    s[..p] + rep + s[p + n..]
  }

  lemma SpliceAt(pre: string, mid: string, post: string, rep: string)
    ensures Splice(pre + mid + post, |pre|, |mid|, rep) == pre + rep + post
  {
    var s := pre + mid + post;
    assert s[..|pre|] == pre;
    assert s[|pre| + |mid|..] == post;
  }

  lemma NoneOfAppend(x: string, y: string, cs: set<char>)
    ensures NoneOf(x + y, cs) <==> NoneOf(x, cs) && NoneOf(y, cs)
  {
    if NoneOf(x, cs) && NoneOf(y, cs) {
      forall j | 0 <= j < |x + y| ensures (x + y)[j] !in cs {
        if j >= |x| { assert (x + y)[j] == y[j - |x|]; }
      }
    }
    if NoneOf(x + y, cs) {
      forall j | 0 <= j < |y| ensures y[j] !in cs {
        assert (x + y)[|x| + j] == y[j];
      }
      forall j | 0 <= j < |x| ensures x[j] !in cs {
        assert (x + y)[j] == x[j];
      }
    }
  }

  /** `p + x + q + y` regrouped to the right. */
  lemma Regroup(x: string, y: string, p: string, q: string)
    ensures p + x + q + y == p + (x + (q + y))
  {
  }

  /** A string is its prefix up to `k` followed by the rest. */
  lemma SplitAt(s: string, k: nat)
    requires k <= |s|
    ensures s[..k] + s[k..] == s
  {
  }

  lemma NoneOfSubset(s: string, cs: set<char>, ds: set<char>)
    requires NoneOf(s, cs) && ds <= cs
    ensures NoneOf(s, ds)
  {
  }

  /** Python's `str.replace(pat, rep)`: every non-overlapping occurrence,
      scanned left to right. */
  function ReplaceAll(s: string, pat: string, rep: string): string
    requires |pat| > 0
    decreases |s|
  {
    if s == [] then []
    else if StartsWith(s, pat) then rep + ReplaceAll(s[|pat|..], pat, rep)
    else [s[0]] + ReplaceAll(s[1..], pat, rep)
  }

  /** Replacing a pattern by something no longer never lengthens the text. */
  lemma {:induction false} ReplaceAllNotLonger(s: string, pat: string, rep: string)
    requires |pat| > 0 && |rep| <= |pat|
    ensures |ReplaceAll(s, pat, rep)| <= |s|
    decreases |s|
  {
    if s == [] {
    } else if StartsWith(s, pat) {
      ReplaceAllNotLonger(s[|pat|..], pat, rep);
    } else {
      ReplaceAllNotLonger(s[1..], pat, rep);
    }
  }

  /** Replacing a one-character pattern by a string that does not contain
      that character removes every occurrence of it, and keeps every other
      character class `cs` absent when neither side has it. */
  lemma {:induction false} ReplaceAllCharGone(s: string, c: char, rep: string, cs: set<char>)
    requires c in cs
    requires NoneOf(rep, cs)
    requires NoneOf(s, cs - {c})
    ensures NoneOf(ReplaceAll(s, [c], rep), cs)
    decreases |s|
  {
    if s == [] {
    } else if StartsWith(s, [c]) {
      ReplaceAllCharGone(s[1..], c, rep, cs);
    } else {
      assert s[0] != c;
      ReplaceAllCharGone(s[1..], c, rep, cs);
    }
  }

  /** Characters of `s` that are not in `cs` stay absent after any
      replacement whose replacement text avoids them too. */
  lemma {:induction false} ReplaceAllKeepsAbsent(s: string, pat: string, rep: string, cs: set<char>)
    requires |pat| > 0
    requires NoneOf(s, cs) && NoneOf(rep, cs)
    ensures NoneOf(ReplaceAll(s, pat, rep), cs)
    decreases |s|
  {
    if s == [] {
    } else if StartsWith(s, pat) {
      ReplaceAllKeepsAbsent(s[|pat|..], pat, rep, cs);
    } else {
      ReplaceAllKeepsAbsent(s[1..], pat, rep, cs);
    }
  }

  /** `s.replace(c, d)` for single characters: every `c` becomes `d`. */
  function ReplaceChar(s: string, c: char, d: char): (r: string)
    ensures |r| == |s|
    ensures forall i :: 0 <= i < |s| ==> r[i] == if s[i] == c then d else s[i]
  {
    if s == [] then [] else ReplaceChar(s[..|s| - 1], c, d) + [if s[|s| - 1] == c then d else s[|s| - 1]]
  }

  /** The character map is the general replacement with one-character
      pattern and replacement. */
  lemma {:induction false} ReplaceCharIsReplaceAll(s: string, c: char, d: char)
    ensures ReplaceChar(s, c, d) == ReplaceAll(s, [c], [d])
    decreases |s|
  {
    if s != [] {
      ReplaceCharIsReplaceAll(s[1..], c, d);
      assert ReplaceChar(s, c, d) == [if s[0] == c then d else s[0]] + ReplaceChar(s[1..], c, d);
    }
  }

  /** `[f(x) for x in xs]`. */
  function MapStrings(f: string -> string, xs: seq<string>): (r: seq<string>)
    ensures |r| == |xs|
    ensures forall k :: 0 <= k < |xs| ==> r[k] == f(xs[k])
  {
    if xs == [] then [] else [f(xs[0])] + MapStrings(f, xs[1..])
  }

  /** All strings of `xs`, one after the other. */
  function Concat(xs: seq<string>): string
  {
    if xs == [] then [] else xs[0] + Concat(xs[1..])
  }

  lemma {:induction false} ConcatAppend(xs: seq<string>, ys: seq<string>)
    ensures Concat(xs + ys) == Concat(xs) + Concat(ys)
    decreases |xs|
  {
    if xs == [] {
      assert xs + ys == ys;
    } else {
      assert (xs + ys)[1..] == xs[1..] + ys;
      ConcatAppend(xs[1..], ys);
    }
  }

  /** `ConcatAppend` with a trailing string. */
  lemma ConcatThen(xs: seq<string>, ys: seq<string>, t: string)
    ensures Concat(xs) + (Concat(ys) + t) == Concat(xs + ys) + t
  {
    ConcatAppend(xs, ys);
  }

  /** `xs` joined by `sep` (JavaScript `join`, Python `sep.join`). */
  function Join(xs: seq<string>, sep: string): string
  {
    if xs == [] then []
    else if |xs| == 1 then xs[0]
    else xs[0] + sep + Join(xs[1..], sep)
  }

  /** Joining one more string. */
  lemma {:induction false} JoinSnoc(xs: seq<string>, x: string, sep: string)
    ensures Join(xs + [x], sep) == if xs == [] then x else Join(xs, sep) + sep + x
    decreases |xs|
  {
    if |xs| == 1 {
      assert (xs + [x])[1..] == [x];
    } else if |xs| > 1 {
      assert (xs + [x])[1..] == xs[1..] + [x];
      JoinSnoc(xs[1..], x, sep);
    }
  }

  /** What a loop that appends `xs[k]`, and `sep` after every string but the
      last, has built after its first `i` rounds. */
  function JoinedSoFar(xs: seq<string>, i: nat, sep: string): string
    requires i <= |xs|
  {
    if i == 0 then [] else Join(xs[..i], sep) + (if i < |xs| then sep else [])
  }

  /** One more round of that loop. */
  lemma JoinedSoFarStep(xs: seq<string>, i: nat, sep: string)
    requires i < |xs|
    ensures JoinedSoFar(xs, i + 1, sep) == JoinedSoFar(xs, i, sep) + xs[i] + (if i < |xs| - 1 then sep else [])
  {
    var tail: string := if i < |xs| - 1 then sep else [];
    assert xs[..i + 1] == xs[..i] + [xs[i]];
    JoinSnoc(xs[..i], xs[i], sep);
    assert JoinedSoFar(xs, i + 1, sep) == Join(xs[..i + 1], sep) + tail;
    if i > 0 {
      assert JoinedSoFar(xs, i, sep) == Join(xs[..i], sep) + sep;
      assert Join(xs[..i + 1], sep) == Join(xs[..i], sep) + sep + xs[i];
    } else {
      assert Join(xs[..i + 1], sep) == xs[i];
    }
  }

  /** After the last round the loop holds `Join(xs, sep)`. */
  lemma JoinedSoFarDone(xs: seq<string>, sep: string)
    ensures JoinedSoFar(xs, |xs|, sep) == Join(xs, sep)
  {
    assert xs[..|xs|] == xs;
  }

  /** `s` split at every `sep` (JavaScript `split(",")`, Python `split("\t")`).
      The empty string gives one empty field, as in both languages. */
  function Split(s: string, sep: char): (r: seq<string>)
    ensures |r| >= 1
    decreases |s|
  {
    match FirstOf(s, {sep})
    case None => [s]
    case Some(i) => [s[..i]] + Split(s[i + 1..], sep)
  }

  /** Splitting undoes joining when no field holds the separator. */
  lemma {:induction false} SplitJoin(xs: seq<string>, sep: char)
    requires |xs| >= 1
    requires forall k :: 0 <= k < |xs| ==> NoneOf(xs[k], {sep})
    ensures Split(Join(xs, [sep]), sep) == xs
    decreases |xs|
  {
    if |xs| == 1 {
      FirstOfAfterClean(xs[0], [], {sep});
      assert xs[0] + [] == xs[0];
    } else {
      var s := Join(xs, [sep]);
      assert s == xs[0] + [sep] + Join(xs[1..], [sep]);
      FirstOfAfterClean(xs[0], [sep] + Join(xs[1..], [sep]), {sep});
      assert s == xs[0] + ([sep] + Join(xs[1..], [sep]));
      assert FirstOf([sep] + Join(xs[1..], [sep]), {sep}) == Some(0);
      assert FirstOf(s, {sep}) == Some(|xs[0]|);
      assert s[..|xs[0]|] == xs[0];
      assert s[|xs[0]| + 1..] == Join(xs[1..], [sep]);
      SplitJoin(xs[1..], sep);
    }
  }

  /** A clean prefix is skipped by `FirstOf`. */
  lemma {:induction false} FirstOfAfterClean(x: string, y: string, cs: set<char>)
    requires NoneOf(x, cs)
    ensures FirstOf(x + y, cs) == match FirstOf(y, cs) case None => None case Some(k) => Some(|x| + k)
    decreases |x|
  {
    if x != [] {
      assert (x + y)[1..] == x[1..] + y;
      FirstOfAfterClean(x[1..], y, cs);
    } else {
      assert x + y == y;
    }
  }

  /** Decimal digit for `d < 10`. */
  function Digit(d: nat): (c: char)
    requires d < 10
    ensures '0' <= c <= '9'
  {
    ['0', '1', '2', '3', '4', '5', '6', '7', '8', '9'][d]
  }

  /** Decimal rendering of a natural number, as JavaScript's `"" + i`. */
  function NatToString(n: nat): (r: string)
    ensures |r| >= 1
    ensures forall j :: 0 <= j < |r| ==> '0' <= r[j] <= '9'
  {
    if n < 10 then [Digit(n)] else NatToString(n / 10) + [Digit(n % 10)]
  }

  /** Line terminators of JavaScript regular expressions: `.` does not match them. */
  const JsLineTerminators: set<char> := {'\n', '\r', '\U{2028}', '\U{2029}'}

  /** ECMAScript GetSubstitution: the meaning of `$` in the replacement text of
      `String.prototype.replace`. `group` is the first capture group when the
      pattern has one (then `$1` and `$01` stand for it) and `None` for a
      string pattern. `$$` is a dollar, `$&` the match, `` $` `` the text before
      it, `$'` the text after it; any other `$` is kept as it is. */
  function JsSubstitute(template: string, matched: string, before: string, after: string,
                        group: Option<string>): string
    decreases |template|
  {
    if template == [] then []
    else if template[0] == '$' && |template| >= 2 then
      var c := template[1];
      if c == '$' then "$" + JsSubstitute(template[2..], matched, before, after, group)
      else if c == '&' then matched + JsSubstitute(template[2..], matched, before, after, group)
      else if c == '`' then before + JsSubstitute(template[2..], matched, before, after, group)
      else if c == '\'' then after + JsSubstitute(template[2..], matched, before, after, group)
      else if c == '1' && group.Some? then group.value + JsSubstitute(template[2..], matched, before, after, group)
      else if c == '0' && |template| >= 3 && template[2] == '1' && group.Some? then
        group.value + JsSubstitute(template[3..], matched, before, after, group)
      else "$" + JsSubstitute(template[1..], matched, before, after, group)
    else [template[0]] + JsSubstitute(template[1..], matched, before, after, group)
  }

  /** Without a `$` the replacement text is inserted as it is. */
  lemma {:induction false} JsSubstituteLiteral(template: string, matched: string, before: string, after: string,
                                               group: Option<string>)
    requires NoneOf(template, {'$'})
    ensures JsSubstitute(template, matched, before, after, group) == template
    decreases |template|
  {
    if template != [] {
      assert template[0] != '$';
      JsSubstituteLiteral(template[1..], matched, before, after, group);
      assert template == [template[0]] + template[1..];
    }
  }

  /** JavaScript `s.replace(pat, rep)` with a string pattern: the first
      occurrence of `pat` is replaced by `rep` after `$` substitution. */
  function JsReplaceString(s: string, pat: string, rep: string): (r: string)
    ensures IndexOf(s, pat).None? ==> r == s
  {
    match IndexOf(s, pat)
    case None => s
    case Some(p) => s[..p] + JsSubstitute(rep, pat, s[..p], s[p + |pat|..], None) + s[p + |pat|..]
  }
}
