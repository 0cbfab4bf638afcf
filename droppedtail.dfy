/** `getSpansAsArray` on markup made of whole pieces, and what `handleInput`
    (static/script.js) does to the question "Where was [Marie Curie] born?"
    once the entity text has been edited: the loop stops after the piece
    holding the last recorded entity, and the markup rebuilt from the pieces
    it took has lost " born?". */
module DroppedTail {
  import opened Strings
  import opened Regex
  import opened Markup
  import opened RoundTrip
  import opened Unmark
  import opened Reconcile

  // ---------------------------------------------------------------------
  // getSpansAsArray on whole pieces
  // ---------------------------------------------------------------------

  /** A piece of markup whose only closing tag is the one it ends with. */
  predicate OnePiece(x: string)
  {
    && |x| >= |CloseTag| && CloseTagAt(x, |x| - |CloseTag|)
    && forall i :: 0 <= i < |x| - |CloseTag| ==> !TagEndsAt(x, i)
  }

  /** `</` starts at `i`. */
  predicate TagEndsAt(x: string, i: nat)
    requires i + 1 < |x|
  {
    x[i] == '<' && x[i + 1] == '/'
  }

  function Shift(xs: seq<nat>, d: nat): seq<nat>
  {
    seq(|xs|, k requires 0 <= k < |xs| => xs[k] + d)
  }

  lemma {:induction false} SpanEndsPiece(x: string, r: string, from: nat)
    requires OnePiece(x) && from <= |x| - |CloseTag|
    ensures SpanEnds(x + r, from) == [|x|] + SpanEnds(x + r, |x|)
    decreases |x| - from
  {
    var s := x + r;
    if from < |x| - |CloseTag| {
      assert !TagEndsAt(x, from);
      assert s[from] == x[from] && s[from + 1] == x[from + 1];
      SpanEndsPiece(x, r, from + 1);
    } else {
      assert s[from..from + 7] == x[from..from + 7];
    }
  }

  lemma CloseTagShift(x: string, r: string, j: nat)
    ensures CloseTagAt(x + r, |x| + j) <==> CloseTagAt(r, j)
  {
    if |x| + j + 7 <= |x + r| {
      assert (x + r)[|x| + j..|x| + j + 7] == r[j..j + 7];
    }
  }

  lemma ShiftCons(a: nat, xs: seq<nat>, d: nat)
    ensures Shift([a] + xs, d) == [a + d] + Shift(xs, d)
  {
  }

  lemma {:induction false} SpanEndsShift(x: string, r: string, j: nat)
    requires j <= |r|
    ensures SpanEnds(x + r, |x| + j) == Shift(SpanEnds(r, j), |x|)
    decreases |r| - j
  {
    var s := x + r;
    CloseTagShift(x, r, j);
    if j + 7 <= |r| {
      if CloseTagAt(r, j) {
        assert SpanEnds(s, |x| + j) == [|x| + (j + 7)] + SpanEnds(s, |x| + (j + 7));
        SpanEndsShift(x, r, j + 7);
        ShiftCons(j + 7, SpanEnds(r, j + 7), |x|);
      } else {
        assert SpanEnds(s, |x| + j) == SpanEnds(s, |x| + (j + 1));
        SpanEndsShift(x, r, j + 1);
      }
    } else {
      assert SpanEnds(s, |x| + j) == [] && SpanEnds(r, j) == [];
    }
  }

  lemma {:induction false} SlicesShift(x: string, r: string, start: nat, ends: seq<nat>)
    requires start <= |r|
    requires forall k :: 0 <= k < |ends| ==> start <= ends[k] <= |r|
    requires forall a, b :: 0 <= a < b < |ends| ==> ends[a] <= ends[b]
    ensures Slices(x + r, |x| + start, Shift(ends, |x|)) == Slices(r, start, ends)
    decreases |ends|
  {
    if ends != [] {
      assert Shift(ends, |x|)[1..] == Shift(ends[1..], |x|);
      SliceShift(x, r, start, ends[0]);
      SlicesShift(x, r, ends[0], ends[1..]);
    }
  }

  /** Slicing behind a prefix `x` is slicing `r` with both ends moved by `|x|`. */
  lemma SliceShift(x: string, r: string, a: nat, b: nat)
    ensures JsSlice(x + r, |x| + a, |x| + b) == JsSlice(r, a, b)
  {
    if a < b && a < |r| {
      var to := if b < |r| then b else |r|;
      assert (x + r)[|x| + a..|x| + to] == r[a..to];
    }
  }

  lemma SpanEndsFront(x: string, r: string)
    requires OnePiece(x)
    ensures SpanEnds(x + r, 0) == [|x|] + Shift(SpanEnds(r, 0), |x|)
  {
    SpanEndsPiece(x, r, 0);
    SpanEndsShift(x, r, 0);
  }

  /** A whole piece in front is cut off as the first piece. */
  lemma SpansPiece(x: string, r: string)
    requires OnePiece(x)
    ensures Spans(x + r) == [x] + Spans(r)
  {
    SpanEndsFront(x, r);
    var e := SpanEnds(r, 0);
    assert ([|x|] + Shift(e, |x|))[1..] == Shift(e, |x|);
    assert (x + r)[0..|x|] == x;
    SlicesShift(x, r, 0, e);
  }

  /** The last closing tag of `x + r` ends where the last one of `r` does,
      moved by `|x|`, or at the end of `x` when `r` has none. */
  lemma LastEndPiece(x: string, r: string)
    requires OnePiece(x)
    ensures var e := SpanEnds(r, 0);
            var ends := SpanEnds(x + r, 0);
            ends != [] && ends[|ends| - 1] == |x| + (if e == [] then 0 else e[|e| - 1])
  {
    SpanEndsFront(x, r);
    var e := SpanEnds(r, 0);
    if e != [] {
      assert Shift(e, |x|)[|e| - 1] == e[|e| - 1] + |x|;
    }
  }

  /** A whole piece in front does not change what follows the last
      closing tag. */
  lemma TailPiece(x: string, r: string)
    requires OnePiece(x)
    ensures Tail(x + r) == Tail(r)
  {
    var e := SpanEnds(r, 0);
    var last := if e == [] then 0 else e[|e| - 1];
    var ends := SpanEnds(x + r, 0);
    LastEndPiece(x, r);
    TailFrom(x + r, |x| + last);
    TailFrom(r, last);
    assert (x + r)[|x| + last..] == r[last..];
  }

  /** `getSpansAsArray` gives back the whole pieces a markup was put
      together from, and nothing follows the last closing tag. */
  lemma {:induction false} SpansPieces(ps: seq<string>)
    requires forall k :: 0 <= k < |ps| ==> OnePiece(ps[k])
    ensures Spans(Concat(ps)) == ps
    ensures Tail(Concat(ps)) == []
  {
    if ps != [] {
      SpansPieces(ps[1..]);
      SpansPiece(ps[0], Concat(ps[1..]));
      TailPiece(ps[0], Concat(ps[1..]));
      assert [ps[0]] + ps[1..] == ps;
    }
  }

  /** An opening tag with no other `<`, a body without `<`, and the
      closing tag make a whole piece. */
  lemma PieceOf(o: string, body: string)
    requires |o| >= 2 && o[0] == '<' && o[1] != '/' && NoneOf(o[1..], {'<'}) && NoneOf(body, {'<'})
    ensures OnePiece(o + (body + CloseTag))
  {
    var x := o + (body + CloseTag);
    forall i | 0 <= i < |x| - |CloseTag| ensures !TagEndsAt(x, i) {
      if 0 < i < |o| {
        assert x[i] == o[1..][i - 1];
      } else if |o| <= i {
        assert x[i] == body[i - |o|];
      }
    }
    assert x[|x| - |CloseTag|..] == CloseTag;
  }

  lemma PlainPiece(a: string)
    requires NoneOf(a, {'<'})
    ensures OnePiece(Span(a))
  {
    assert NoneOf(PlainOpen[1..], {'<'});
    PieceOf(PlainOpen, a);
  }

  lemma TagPiece(prefix: string, attrs: string, body: string)
    requires |prefix| >= 2 && prefix[0] == '<' && prefix[1] != '/'
    requires NoneOf(prefix[1..], {'<'}) && NoneOf(attrs, {'<'}) && NoneOf(body, {'<'})
    ensures OnePiece(prefix + (attrs + ">") + (body + CloseTag))
  {
    var o := prefix + (attrs + ">");
    assert NoneOf(">", {'<'});
    NoneOfAppend(attrs, ">", {'<'});
    NoneOfAppend(prefix[1..], attrs + ">", {'<'});
    assert o[1..] == prefix[1..] + (attrs + ">");
    PieceOf(o, body);
  }

  lemma EntityPiece(k: nat, name: string)
    requires NoneOf(name, {'<'})
    ensures OnePiece(Tag(true, k) + (name + CloseTag))
  {
    EntityOpenPrefixClean();
    InputEntityAttrsClean(k);
    NoneOfSubset(InputEntityAttrs(k), TagFree, {'<'});
    TagPiece(EntityOpenPrefix, Attrs(true, k), name);
  }

  // ---------------------------------------------------------------------
  // The pieces of an entity question
  // ---------------------------------------------------------------------

  /** A plain span holds no entity. */
  lemma PlainNoEntity(a: string)
    requires NoneOf(a, {'<'})
    ensures !HasEntity(Span(a))
  {
    var t: string := [];
    assert Span(a) == PlainOpen + (a + (CloseTag + t));
    NoEntityInPlainOpen(a + (CloseTag + t), true);
    FirstMatchCopy(EntityName, PlainOpen, a + (CloseTag + t), true);
    NoTagIn(a, CloseTag + t, false);
    FirstMatchCopy(EntityName, a, CloseTag + t, false);
    NoTagInClose(t);
    FirstMatchCopy(EntityName, CloseTag, t, false);
  }

  /** An entity span holds an entity. */
  lemma EntityHasEntity(k: nat, name: string)
    requires NoneOf(name, {'<'})
    ensures HasEntity(Tag(true, k) + (name + CloseTag))
  {
    var y := Tag(true, k) + (name + CloseTag);
    EntityMatch(true, k, name, [], true);
    assert y + [] == y;
  }

  lemma OpenTagOf(prefix: string, attrs: string, rest: string)
    requires prefix == EntityOpenPrefix && NoneOf(attrs, {'>'})
    ensures EntityOpenTag(prefix + (attrs + (">" + rest)), true) == Some(Match(|prefix| + |attrs| + 1, PlainOpen))
  {
    var s := prefix + (attrs + (">" + rest));
    assert s[..|prefix|] == prefix;
    assert s[|prefix|..] == attrs + (">" + rest);
    FirstOfAfterClean(attrs, ">" + rest, {'>'});
  }

  lemma OpenTagFront(k: nat, name: string)
    ensures EntityOpenTag(Tag(true, k) + (name + CloseTag), true) == Some(Match(|Tag(true, k)|, PlainOpen))
  {
    var attrs := Attrs(true, k);
    InputEntityAttrsClean(k);
    NoneOfSubset(attrs, TagFree, {'>'});
    Nest(EntityOpenPrefix, attrs + ">", name + CloseTag);
    Nest(attrs, ">", name + CloseTag);
    OpenTagOf(EntityOpenPrefix, attrs, name + CloseTag);
  }

  /** Demoting an entity span leaves a plain span with the same text. */
  lemma DemoteEntity(k: nat, name: string)
    ensures Demote(Tag(true, k) + (name + CloseTag)) == Span(name)
  {
    var y := Tag(true, k) + (name + CloseTag);
    OpenTagFront(k, name);
    assert y[0..] == y;
    assert FirstMatch(EntityOpenTag, y, true) == Some((0, Match(|Tag(true, k)|, PlainOpen)));
    assert y[|Tag(true, k)|..] == name + CloseTag;
  }

  /** The loop on a plain piece, then a mismatched entity piece, then
      anything: it stops after the entity piece, as one name was recorded. */
  lemma ScanMismatchFirst(x: string, y: string, z: string, name: string, recorded: string)
    requires !HasEntity(x) && HasEntity(y) && name != recorded
    ensures ScanFrom([x, y, z], [name], [recorded], Start) == Scan([x, Demote(y)], [], 1, true, 2)
  {
    assert [x, y, z][1..] == [y, z];
  }

  lemma Nest(a: string, b: string, c: string)
    ensures a + (b + c) == (a + b) + c
  {
  }

  /** The question `first[name]after` in the input field is its three
      pieces, which `getSpansAsArray` gives back, with one entity name. */
  lemma MarkedPieces(first: string, name: string, after: string)
    requires PlainRun(first) && MentionName(name) && PlainRun(after)
    ensures var text := Marked(first, [Part(name, after)], true);
            var pieces := [Span(first), Tag(true, 0) + (name + CloseTag), Span(after)];
            && text == Concat(pieces)
            && Spans(text) == pieces && Tail(text) == []
            && GetEntityNames(text) == [name]
  {
    var ps := [Part(name, after)];
    var x, y, z := Span(first), Tag(true, 0) + (name + CloseTag), Span(after);
    assert EntitySpans(ps[1..], true, 1) == [];
    assert EntitySpans(ps, true, 0) == Tag(true, 0) + (name + (CloseTag + (z + [])));
    Nest(Tag(true, 0), name, CloseTag + (z + []));
    Nest(Tag(true, 0) + name, CloseTag, z + []);
    Nest(Tag(true, 0), name, CloseTag);
    assert Concat([z]) == z + [];
    assert Concat([y, z]) == y + (z + []);
    NoneOfSubset(first, Unsafe, {'<'});
    NoneOfSubset(name, Unsafe + JsLineTerminators, {'<'});
    NoneOfSubset(after, Unsafe, {'<'});
    PlainPiece(first);
    EntityPiece(0, name);
    PlainPiece(after);
    SpansPieces([x, y, z]);
    assert Names(ps) == [name];
    NamesMarked(first, ps, true);
  }

  /** The loop on that question when the entity's text is no longer the
      recorded name. */
  lemma MarkedScan(first: string, name: string, after: string, recorded: string)
    requires PlainRun(first) && MentionName(name) && PlainRun(after) && name != recorded
    ensures var text := Marked(first, [Part(name, after)], true);
            ScanOf(text, [recorded]) == Scan([Span(first), Span(name)], [], 1, true, 2)
  {
    MarkedPieces(first, name, after);
    NoneOfSubset(first, Unsafe, {'<'});
    NoneOfSubset(name, Unsafe + JsLineTerminators, {'<'});
    PlainNoEntity(first);
    EntityHasEntity(0, name);
    ScanMismatchFirst(Span(first), Tag(true, 0) + (name + CloseTag), Span(after), name, recorded);
    DemoteEntity(0, name);
  }

  /** Both versions of `handleInput` once the loop stopped after two of
      three pieces with a mismatch. */
  lemma RebuildAfterScan(text: string, recorded: string, x: string, w: string, y: string, z: string)
    requires ScanOf(text, [recorded]) == Scan([x, w], [], 1, true, 2)
    requires Spans(text) == [x, y, z] && Tail(text) == []
    ensures HandleInputAsWritten(text, Some([recorded])) == (RemoveBr(Rejoin(x + w)), [])
    ensures HandleInput(text, Some([recorded])) == (RemoveBr(Rejoin(x + w + z)), [])
  {
    var st := ScanOf(text, [recorded]);
    assert w + [] == w && z + [] == z;
    assert [x, w][1..] == [w] && [w][1..] == [] && [z][1..] == [];
    assert Concat([w]) == w + Concat([]);
    assert Concat([x, w]) == x + Concat([w]);
    assert Concat([x, w]) == x + w;
    assert Spans(text)[2..] == [z];
    assert Concat([z]) == z;
    assert Untaken(text, 2) == z;
    assert Rebuilt(text, st) == x + w + z;
  }

  /** The question `first[name]after` in the input field, after the
      entity text was edited so that it no longer equals the name
      recorded for it: the source rebuilds the markup from its first two
      pieces only, while the corrected version keeps the third. */
  lemma DroppedAfterMismatch(first: string, name: string, after: string, recorded: string)
    requires PlainRun(first) && MentionName(name) && PlainRun(after) && name != recorded
    ensures var text := Marked(first, [Part(name, after)], true);
            && HandleInputAsWritten(text, Some([recorded])) == (RemoveBr(Rejoin(Span(first) + Span(name))), [])
            && HandleInput(text, Some([recorded])) == (RemoveBr(Rejoin(Span(first) + Span(name) + Span(after))), [])
  {
    var text := Marked(first, [Part(name, after)], true);
    MarkedPieces(first, name, after);
    MarkedScan(first, name, after, recorded);
    RebuildAfterScan(text, recorded, Span(first), Span(name), Tag(true, 0) + (name + CloseTag), Span(after));
  }

  /** So the source's markup after such an edit is the same whatever text
      followed the entity. */
  lemma AfterIgnored(first: string, name: string, after1: string, after2: string, recorded: string)
    requires PlainRun(first) && MentionName(name) && PlainRun(after1) && PlainRun(after2) && name != recorded
    ensures HandleInputAsWritten(Marked(first, [Part(name, after1)], true), Some([recorded]))
            == HandleInputAsWritten(Marked(first, [Part(name, after2)], true), Some([recorded]))
  {
    DroppedAfterMismatch(first, name, after1, recorded);
    DroppedAfterMismatch(first, name, after2, recorded);
  }

  /** "Where was [Marie Curie] born?" with the entity text edited to
      "Marie Curiex": the source's markup keeps no trace of " born?". */
  lemma MarieCurie()
    ensures var text := Marked("Where was ", [Part("Marie Curiex", " born?")], true);
            && HandleInputAsWritten(text, Some(["Marie Curie"]))
               == (RemoveBr(Rejoin(Span("Where was ") + Span("Marie Curiex"))), [])
            && HandleInput(text, Some(["Marie Curie"]))
               == (RemoveBr(Rejoin(Span("Where was ") + Span("Marie Curiex") + Span(" born?"))), [])
  {
    assert PlainRun("Where was ") && MentionName("Marie Curiex") && PlainRun(" born?");
    DroppedAfterMismatch("Where was ", "Marie Curiex", " born?", "Marie Curie");
  }
}
