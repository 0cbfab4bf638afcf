/** The string part of `handleInput` (static/script.js): after every edit
    of the question field, an entity span whose live text no longer equals
    the entity name recorded at the same ordinal position is demoted to a
    plain span, the recorded names are cut down to those that still match,
    one empty plain span is removed and one pair of adjacent plain spans is
    merged. */
module Reconcile {
  import opened Strings
  import opened Regex
  import opened Markup

  // ---------------------------------------------------------------------
  // The regular expressions of handleInput
  // ---------------------------------------------------------------------

  /** `/<span class="entity"[^>]*>/` with the replacement `<span>`: the
      opening tag runs to the first `>` after its prefix. */
  function EntityOpenTag(s: string, atStart: bool): (r: Option<Match>)
    ensures r.Some? ==> StartsWith(s, EntityOpenPrefix) && r.value.out == PlainOpen
    ensures r.Some? ==> |EntityOpenPrefix| < r.value.len <= |s| && s[r.value.len - 1] == '>'
  {
    if !StartsWith(s, EntityOpenPrefix) then None
    else match FirstOf(s[|EntityOpenPrefix|..], {'>'})
      case None => None
      case Some(a) => Some(Match(|EntityOpenPrefix| + a + 1, PlainOpen))
  }

  /** `currSpan.replace(/<span class="entity"[^>]*>/, '<span>')`. */
  function Demote(piece: string): string
  {
    RewriteFirst(EntityOpenTag, piece, true)
  }

  /** `currSpan.match(inputEntityRegex) != null`. */
  predicate HasEntity(piece: string)
  {
    FirstMatch(EntityName, piece, true).Some?
  }

  /** `xs[k]`, which is `undefined` past the end. */
  function At(xs: seq<string>, k: nat): (r: Option<string>)
    ensures r.Some? <==> k < |xs|
    ensures r.Some? ==> r.value == xs[k]
  {
    if k < |xs| then Some(xs[k]) else None
  }

  /** `text.replace("<span></span>", "")`: the first empty plain span goes. */
  function RemoveEmpty(t: string): string
  {
    ReplaceFirst(t, PlainOpen + CloseTag, "")
  }

  /** `/(<span>[^<]*?)<\/span><span>/` with the replacement `$1`. The lazy
      run cannot pass a `<`, so the seam must start at the first `<` after
      the opening tag. */
  function PlainSeam(s: string, atStart: bool): (r: Option<Match>)
    ensures r.Some? ==> |PlainOpen| + |CloseTag + PlainOpen| <= r.value.len <= |s|
  {
    if !StartsWith(s, PlainOpen) then None
    else match FirstOf(s[|PlainOpen|..], {'<'})
      case None => None
      case Some(k) =>
        if StartsWith(s[|PlainOpen| + k..], CloseTag + PlainOpen)
        then Some(Match(|PlainOpen| + k + |CloseTag + PlainOpen|, s[..|PlainOpen| + k]))
        else None
  }

  /** The merge of the first pair of adjacent plain spans. */
  function MergeFirst(t: string): string
  {
    RewriteFirst(PlainSeam, t, true)
  }

  /** The clean-up after a mismatch: one empty plain span removed, then one
      pair of adjacent plain spans merged. */
  function Rejoin(t: string): string
  {
    MergeFirst(RemoveEmpty(t))
  }

  /** `text.replace("<br>", "")`. */
  function RemoveBr(t: string): string
  {
    ReplaceFirst(t, "<br>", "")
  }

  // ---------------------------------------------------------------------
  // The loop over the pieces of the markup
  // ---------------------------------------------------------------------

  /** The variables of the loop: `newSpans`, `newEntities`, `entityIndex`,
      `entityMismatch`, and how many pieces it has taken. */
  datatype Scan = Scan(pieces: seq<string>, kept: seq<string>, index: nat, mismatch: bool, used: nat)

  const Start: Scan := Scan([], [], 0, false, 0)

  /** One round of the loop on `piece`, with `curr` the names found in the
      markup and `recorded` the names recorded for it. */
  function ScanStep(st: Scan, piece: string, curr: seq<string>, recorded: seq<string>): Scan
  {
    if !HasEntity(piece) then
      st.(pieces := st.pieces + [piece], used := st.used + 1)
    else if At(curr, st.index) != At(recorded, st.index) then
      st.(pieces := st.pieces + [Demote(piece)], index := st.index + 1, mismatch := true, used := st.used + 1)
    else
      st.(pieces := st.pieces + [piece], kept := st.kept + AtList(recorded, st.index),
          index := st.index + 1, used := st.used + 1)
  }

  /** `[xs[k]]`, or nothing past the end. */
  function AtList(xs: seq<string>, k: nat): (r: seq<string>)
    ensures k < |xs| ==> r == [xs[k]]
    ensures k >= |xs| ==> r == []
  {
    if k < |xs| then [xs[k]] else []
  }

  /** The rest of the loop on the pieces `rest`; it stops after the round
      in which `entityIndex` reaches the number of recorded names. */
  function ScanFrom(rest: seq<string>, curr: seq<string>, recorded: seq<string>, st: Scan): Scan
    decreases |rest|
  {
    if rest == [] then st
    else
      var next := ScanStep(st, rest[0], curr, recorded);
      if next.index >= |recorded| then next else ScanFrom(rest[1..], curr, recorded, next)
  }

  /** The loop of `handleInput` over the pieces of `getSpansAsArray`;
      `ScanFromStart` states what it computes. */
  method ScanSpans(spans: seq<string>, curr: seq<string>, recorded: seq<string>) returns (st: Scan)
    ensures st == ScanFrom(spans, curr, recorded, Start)
  {
    var newSpans: seq<string> := [];
    var newEntities: seq<string> := [];
    var entityIndex: nat := 0;
    var entityMismatch := false;
    var i := 0;
    while i < |spans|
      invariant i <= |spans|
      invariant ScanFrom(spans[i..], curr, recorded, Scan(newSpans, newEntities, entityIndex, entityMismatch, i))
                == ScanFrom(spans, curr, recorded, Start)
    {
      assert spans[i..][0] == spans[i] && spans[i..][1..] == spans[i + 1..];
      var currSpan := spans[i];
      if HasEntity(currSpan) {
        if At(curr, entityIndex) != At(recorded, entityIndex) {
          currSpan := Demote(currSpan);
          entityMismatch := true;
        } else if entityIndex < |recorded| {
          newEntities := newEntities + [recorded[entityIndex]];
        }
        entityIndex := entityIndex + 1;
      }
      newSpans := newSpans + [currSpan];
      i := i + 1;
      if entityIndex >= |recorded| {
        break;
      }
    }
    st := Scan(newSpans, newEntities, entityIndex, entityMismatch, i);
  }

  // ---------------------------------------------------------------------
  // handleInput, as written and corrected
  // ---------------------------------------------------------------------

  /** The loop run on the markup `text` with the recorded names `recorded`. */
  function ScanOf(text: string, recorded: seq<string>): Scan
  {
    ScanFrom(Spans(text), GetEntityNames(text), recorded, Start)
  }

  /** The new markup and the new recorded names, as the source computes
      them: on a mismatch the markup is rebuilt from the pieces the loop
      took, so whatever follows the piece that holds the last recorded
      entity is lost. */
  function HandleInputAsWritten(text: string, entities: Option<seq<string>>): (string, seq<string>)
  {
    match entities
    case None => (RemoveBr(text), [])
    case Some(recorded) =>
      var st := ScanOf(text, recorded);
      var t := if st.mismatch then Rejoin(Concat(st.pieces)) else text;
      (RemoveBr(t), st.kept)
  }

  /** The text after the end of the last closing tag. */
  function Tail(text: string): string
  {
    var ends := SpanEnds(text, 0);
    if ends == [] then text else text[ends[|ends| - 1]..]
  }

  /** The markup the loop did not look at: the pieces after the first
      `used` and the text after the last closing tag. */
  function Untaken(text: string, used: nat): string
  {
    var spans := Spans(text);
    (if used <= |spans| then Concat(spans[used..]) else []) + Tail(text)
  }

  /** The pieces the loop took, followed by the markup it did not look at. */
  function Rebuilt(text: string, st: Scan): string
  {
    Concat(st.pieces) + Untaken(text, st.used)
  }

  /** `handleInput` with the rebuilt markup keeping what follows the last
      piece the loop took. */
  function HandleInput(text: string, entities: Option<seq<string>>): (string, seq<string>)
  {
    match entities
    case None => (RemoveBr(text), [])
    case Some(recorded) =>
      var st := ScanOf(text, recorded);
      var t := if st.mismatch then Rejoin(Rebuilt(text, st)) else text;
      (RemoveBr(t), st.kept)
  }

  /** The steps of `handleInput` on the question markup `html` and the
      recorded names `entities`, in the source's order, with the corrected
      rebuild: on a mismatch the markup is `Rebuilt`, which keeps what
      follows the last piece the loop took, where the source joins only the
      pieces it took (`HandleInputAsWritten`). */
  method HandleInputText(html: string, entities: Option<seq<string>>) returns (text: string, newEntities: seq<string>)
    ensures (text, newEntities) == HandleInput(html, entities)
  {
    text := html;
    newEntities := [];
    var spans := GetSpansAsArray(text);
    if entities.Some? {
      var st := ScanSpans(spans, GetEntityNames(text), entities.value);
      newEntities := st.kept;
      if st.mismatch {
        text := Rejoin(Rebuilt(html, st));
      }
    }
    text := RemoveBr(text);
  }

  // ---------------------------------------------------------------------
  // The recorded names that survive
  // ---------------------------------------------------------------------

  /** The recorded names among the first `n` positions whose name in `curr`
      at the same position is still the same, in order. */
  function Kept(curr: seq<string>, recorded: seq<string>, n: nat): seq<string>
  {
    if n == 0 then []
    else Kept(curr, recorded, n - 1)
         + (if n - 1 < |recorded| && At(curr, n - 1) == Some(recorded[n - 1]) then [recorded[n - 1]] else [])
  }

  /** Some position among the first `n` has a name that changed. */
  predicate Mismatched(curr: seq<string>, recorded: seq<string>, n: nat)
  {
    exists j :: 0 <= j < n && At(curr, j) != At(recorded, j)
  }

  // The invariant of the loop is stated for any entity test `has` and
  // demotion `demote`, passed as values, so that its proofs do not look
  // inside the regular expressions; the loop itself uses `HasEntity` and
  // `Demote`.

  /** The number of pieces among the first `n` that pass `has`. */
  function CountBy(has: string -> bool, spans: seq<string>, n: nat): (r: nat)
    requires n <= |spans|
    ensures r <= n
  {
    if n == 0 then 0 else CountBy(has, spans, n - 1) + (if has(spans[n - 1]) then 1 else 0)
  }

  /** The number of pieces among the first `n` that hold an entity: the
      value of `entityIndex` after `n` rounds. */
  function EntityCount(spans: seq<string>, n: nat): (r: nat)
    requires n <= |spans|
    ensures r <= n
  {
    CountBy(HasEntity, spans, n)
  }

  /** Piece `j` as the loop leaves it, for the entity test `has` and the
      demotion `demote`. */
  function ReconciledBy(has: string -> bool, demote: string -> string,
                        spans: seq<string>, curr: seq<string>, recorded: seq<string>, j: nat): string
    requires j < |spans|
  {
    var e := CountBy(has, spans, j);
    if has(spans[j]) && At(curr, e) != At(recorded, e) then demote(spans[j]) else spans[j]
  }

  /** Piece `j` as the loop leaves it. An entity piece is demoted exactly
      when, at its ordinal among the entity pieces, the name shown in the
      markup differs from the recorded one (either may be missing). Every
      other piece is kept as it is. */
  function Reconciled(spans: seq<string>, curr: seq<string>, recorded: seq<string>, j: nat): (r: string)
    requires j < |spans|
    ensures var e := EntityCount(spans, j);
            r == if HasEntity(spans[j]) && At(curr, e) != At(recorded, e) then Demote(spans[j]) else spans[j]
  {
    ReconciledBy(HasEntity, Demote, spans, curr, recorded, j)
  }

  /** The first `n` pieces, each reconciled. */
  function PiecesBy(has: string -> bool, demote: string -> string,
                    spans: seq<string>, curr: seq<string>, recorded: seq<string>, n: nat): (r: seq<string>)
    requires n <= |spans|
    ensures |r| == n
  {
    if n == 0 then []
    else PiecesBy(has, demote, spans, curr, recorded, n - 1) + [ReconciledBy(has, demote, spans, curr, recorded, n - 1)]
  }

  /** The first `n` pieces, each `Reconciled`. */
  function ReconciledPieces(spans: seq<string>, curr: seq<string>, recorded: seq<string>, n: nat): (r: seq<string>)
    requires n <= |spans|
    ensures |r| == n
  {
    PiecesBy(HasEntity, Demote, spans, curr, recorded, n)
  }

  /** Piece `j` of `ReconciledPieces` is piece `j` reconciled. */
  lemma ReconciledPiecesAt(spans: seq<string>, curr: seq<string>, recorded: seq<string>, n: nat)
    requires n <= |spans|
    ensures forall j :: 0 <= j < n ==> ReconciledPieces(spans, curr, recorded, n)[j] == Reconciled(spans, curr, recorded, j)
  {
    PiecesByAt(HasEntity, Demote, spans, curr, recorded, n);
  }

  lemma {:induction false} PiecesByAt(has: string -> bool, demote: string -> string,
                                      spans: seq<string>, curr: seq<string>, recorded: seq<string>, n: nat)
    requires n <= |spans|
    ensures forall j :: 0 <= j < n ==>
              PiecesBy(has, demote, spans, curr, recorded, n)[j] == ReconciledBy(has, demote, spans, curr, recorded, j)
  {
    if n > 0 {
      PiecesByAt(has, demote, spans, curr, recorded, n - 1);
    }
  }

  /** The round of the loop, for the entity test `has` and the demotion
      `demote`; `ScanStep` is this round for `HasEntity` and `Demote`. */
  function StepBy(has: string -> bool, demote: string -> string,
                  st: Scan, piece: string, curr: seq<string>, recorded: seq<string>): Scan
  {
    if !has(piece) then
      st.(pieces := st.pieces + [piece], used := st.used + 1)
    else if At(curr, st.index) != At(recorded, st.index) then
      st.(pieces := st.pieces + [demote(piece)], index := st.index + 1, mismatch := true, used := st.used + 1)
    else
      st.(pieces := st.pieces + [piece], kept := st.kept + AtList(recorded, st.index),
          index := st.index + 1, used := st.used + 1)
  }

  lemma ScanStepIsBy(st: Scan, piece: string, curr: seq<string>, recorded: seq<string>)
    ensures ScanStep(st, piece, curr, recorded) == StepBy(HasEntity, Demote, st, piece, curr, recorded)
  {
  }

  /** The invariant for the entity test `has` and the demotion `demote`. */
  ghost predicate TracksBy(has: string -> bool, demote: string -> string,
                           spans: seq<string>, curr: seq<string>, recorded: seq<string>, st: Scan)
  {
    && st.used <= |spans|
    && st.index == CountBy(has, spans, st.used)
    && st.kept == Kept(curr, recorded, st.index)
    && (st.mismatch <==> Mismatched(curr, recorded, st.index))
    && st.pieces == PiecesBy(has, demote, spans, curr, recorded, st.used)
    && (!st.mismatch ==> st.pieces == spans[..st.used])
  }

  /** What the loop keeps in its variables, in terms of the pieces it took:
      `entityIndex` counts the entity pieces taken, the names kept are the
      recorded names still shown at their ordinal, the mismatch flag says
      whether some ordinal changed, the pieces taken are the
      `ReconciledPieces`, and without a mismatch they are unchanged. */
  ghost predicate Tracks(spans: seq<string>, curr: seq<string>, recorded: seq<string>, st: Scan)
    ensures Tracks(spans, curr, recorded, st) ==>
              && st.used <= |spans|
              && st.index == EntityCount(spans, st.used)
              && st.kept == Kept(curr, recorded, st.index)
              && (st.mismatch <==> Mismatched(curr, recorded, st.index))
              && st.pieces == ReconciledPieces(spans, curr, recorded, st.used)
              && (!st.mismatch ==> st.pieces == spans[..st.used])
  {
    TracksBy(HasEntity, Demote, spans, curr, recorded, st)
  }

  /** Where the loop stops after `used` rounds: it takes at least one piece
      when there is one, it does not break before the last round, and it
      breaks early only once the entity pieces seen reach the number of
      recorded names. */
  ghost predicate StopsAt(spans: seq<string>, recorded: seq<string>, used: nat)
  {
    && used <= |spans|
    && (used < |spans| ==> 0 < used && EntityCount(spans, used) >= |recorded|)
    && (forall n :: 1 <= n < used ==> EntityCount(spans, n) < |recorded|)
  }

  lemma StepTracks(spans: seq<string>, curr: seq<string>, recorded: seq<string>, st: Scan)
    requires Tracks(spans, curr, recorded, st) && st.used < |spans|
    ensures var next := ScanStep(st, spans[st.used], curr, recorded);
            && next.used == st.used + 1 && next.index == EntityCount(spans, st.used + 1)
            && Tracks(spans, curr, recorded, next)
  {
    ScanStepIsBy(st, spans[st.used], curr, recorded);
    StepTracksBy(HasEntity, Demote, spans, curr, recorded, st);
  }

  /** One round keeps the invariant. */
  lemma StepTracksBy(has: string -> bool, demote: string -> string,
                     spans: seq<string>, curr: seq<string>, recorded: seq<string>, st: Scan)
    requires TracksBy(has, demote, spans, curr, recorded, st) && st.used < |spans|
    ensures var next := StepBy(has, demote, st, spans[st.used], curr, recorded);
            && next.used == st.used + 1 && next.index == CountBy(has, spans, st.used + 1)
            && TracksBy(has, demote, spans, curr, recorded, next)
  {
    var piece := spans[st.used];
    var hit := has(piece);
    var same := At(curr, st.index) == At(recorded, st.index);
    var p := if hit && !same then demote(piece) else piece;
    var next := StepBy(has, demote, st, piece, curr, recorded);
    StepFields(has, demote, st, piece, curr, recorded);
    assert p == ReconciledBy(has, demote, spans, curr, recorded, st.used);
    PiecesStep(has, demote, spans, curr, recorded, st.pieces, p, st.mismatch, st.mismatch || (hit && !same));
    KeptNext(curr, recorded, st.index, st.kept, hit);
    MismatchedNext(curr, recorded, st.index, st.mismatch, hit);
    TracksByIntro(has, demote, spans, curr, recorded, next);
  }

  /** The round, field by field. */
  lemma StepFields(has: string -> bool, demote: string -> string,
                   st: Scan, piece: string, curr: seq<string>, recorded: seq<string>)
    ensures var next := StepBy(has, demote, st, piece, curr, recorded);
            var same := At(curr, st.index) == At(recorded, st.index);
            && next.used == st.used + 1
            && next.index == st.index + (if has(piece) then 1 else 0)
            && next.pieces == st.pieces + [if has(piece) && !same then demote(piece) else piece]
            && next.kept == st.kept + (if has(piece) && same then AtList(recorded, st.index) else [])
            && next.mismatch == (st.mismatch || (has(piece) && !same))
  {
  }

  /** The names kept after one more piece, entity or not. */
  lemma KeptNext(curr: seq<string>, recorded: seq<string>, i: nat, kept: seq<string>, hit: bool)
    requires kept == Kept(curr, recorded, i)
    ensures kept + (if hit && At(curr, i) == At(recorded, i) then AtList(recorded, i) else [])
            == Kept(curr, recorded, i + (if hit then 1 else 0))
  {
    if hit {
      KeptStep(curr, recorded, i);
    } else {
      assert kept + [] == kept;
    }
  }

  /** The mismatch flag after one more piece, entity or not. */
  lemma MismatchedNext(curr: seq<string>, recorded: seq<string>, i: nat, mismatch: bool, hit: bool)
    requires mismatch <==> Mismatched(curr, recorded, i)
    ensures (mismatch || (hit && At(curr, i) != At(recorded, i)))
            <==> Mismatched(curr, recorded, i + (if hit then 1 else 0))
  {
    if hit {
      MismatchedStep(curr, recorded, i);
    }
  }

  lemma TracksByIntro(has: string -> bool, demote: string -> string,
                      spans: seq<string>, curr: seq<string>, recorded: seq<string>, st: Scan)
    requires st.used <= |spans|
    requires st.index == CountBy(has, spans, st.used)
    requires st.kept == Kept(curr, recorded, st.index)
    requires st.mismatch <==> Mismatched(curr, recorded, st.index)
    requires st.pieces == PiecesBy(has, demote, spans, curr, recorded, st.used)
    requires !st.mismatch ==> st.pieces == spans[..st.used]
    ensures TracksBy(has, demote, spans, curr, recorded, st)
  {
  }

  /** One more piece taken, reconciled. */
  lemma PiecesStep(has: string -> bool, demote: string -> string, spans: seq<string>, curr: seq<string>,
                   recorded: seq<string>, pieces: seq<string>, p: string, before: bool, after: bool)
    requires |pieces| < |spans|
    requires pieces == PiecesBy(has, demote, spans, curr, recorded, |pieces|)
    requires !before ==> pieces == spans[..|pieces|]
    requires p == ReconciledBy(has, demote, spans, curr, recorded, |pieces|)
    requires !after ==> !before && p == spans[|pieces|]
    ensures pieces + [p] == PiecesBy(has, demote, spans, curr, recorded, |pieces| + 1)
    ensures !after ==> pieces + [p] == spans[..|pieces| + 1]
  {
    if !after {
      assert spans[..|pieces| + 1] == spans[..|pieces|] + [spans[|pieces|]];
    }
  }

  /** The names kept after one more position. */
  lemma KeptStep(curr: seq<string>, recorded: seq<string>, i: nat)
    ensures Kept(curr, recorded, i + 1)
            == Kept(curr, recorded, i) + (if At(curr, i) == At(recorded, i) then AtList(recorded, i) else [])
  {
    if At(curr, i) == At(recorded, i) {
      assert AtList(recorded, i)
             == (if i < |recorded| && At(curr, i) == Some(recorded[i]) then [recorded[i]] else []);
    }
  }

  /** A mismatch among one more position. */
  lemma MismatchedStep(curr: seq<string>, recorded: seq<string>, i: nat)
    ensures Mismatched(curr, recorded, i + 1) <==> Mismatched(curr, recorded, i) || At(curr, i) != At(recorded, i)
  {
    if Mismatched(curr, recorded, i + 1) && !Mismatched(curr, recorded, i) {
      var j :| 0 <= j < i + 1 && At(curr, j) != At(recorded, j);
      assert j == i;
    }
  }

  /** The loop's result, read through `Tracks`, and where it stopped, from
      any state it reaches without having stopped. */
  lemma {:induction false} ScanTracks(spans: seq<string>, curr: seq<string>, recorded: seq<string>, st: Scan)
    requires Tracks(spans, curr, recorded, st) && 0 < st.used
    requires st.used < |spans| ==> st.index < |recorded|
    requires forall n :: 1 <= n < st.used ==> EntityCount(spans, n) < |recorded|
    ensures var r := ScanFrom(spans[st.used..], curr, recorded, st);
            Tracks(spans, curr, recorded, r) && StopsAt(spans, recorded, r.used)
    decreases |spans| - st.used
  {
    if st.used == |spans| {
      assert spans[st.used..] == [];
      StopsHere(spans, recorded, st.used);
    } else {
      var next := ScanStep(st, spans[st.used], curr, recorded);
      ScanRound(spans, curr, recorded, st);
      if next.index < |recorded| {
        ScanTracks(spans, curr, recorded, next);
      } else {
        StopsHere(spans, recorded, next.used);
      }
    }
  }

  /** One round of the loop from a state that has not stopped: the state
      after it keeps `Tracks`, the loop has still not stopped before it,
      and the rest of the loop goes on from it unless it stops there. */
  lemma ScanRound(spans: seq<string>, curr: seq<string>, recorded: seq<string>, st: Scan)
    requires Tracks(spans, curr, recorded, st) && 0 < st.used < |spans| && st.index < |recorded|
    requires forall n :: 1 <= n < st.used ==> EntityCount(spans, n) < |recorded|
    ensures var next := ScanStep(st, spans[st.used], curr, recorded);
            && next.used == st.used + 1 && next.index == EntityCount(spans, st.used + 1)
            && Tracks(spans, curr, recorded, next)
            && (forall n :: 1 <= n < st.used + 1 ==> EntityCount(spans, n) < |recorded|)
            && ScanFrom(spans[st.used..], curr, recorded, st)
               == if next.index >= |recorded| then next else ScanFrom(spans[st.used + 1..], curr, recorded, next)
  {
    ScanFromStep(spans, curr, recorded, st);
    StepTracks(spans, curr, recorded, st);
    StopsLater(spans, recorded, st.used);
  }

  /** One round of `ScanFrom` unfolded. */
  lemma ScanFromStep(spans: seq<string>, curr: seq<string>, recorded: seq<string>, st: Scan)
    requires st.used < |spans|
    ensures var next := ScanStep(st, spans[st.used], curr, recorded);
            ScanFrom(spans[st.used..], curr, recorded, st)
            == if next.index >= |recorded| then next else ScanFrom(spans[st.used + 1..], curr, recorded, next)
  {
    assert spans[st.used..][0] == spans[st.used] && spans[st.used..][1..] == spans[st.used + 1..];
  }

  /** The loop did not stop before round `used + 1` either. */
  lemma StopsLater(spans: seq<string>, recorded: seq<string>, used: nat)
    requires 0 < used < |spans| && EntityCount(spans, used) < |recorded|
    requires forall n :: 1 <= n < used ==> EntityCount(spans, n) < |recorded|
    ensures forall n :: 1 <= n < used + 1 ==> EntityCount(spans, n) < |recorded|
  {
  }

  lemma StopsHere(spans: seq<string>, recorded: seq<string>, used: nat)
    requires 0 < used <= |spans| && (used < |spans| ==> EntityCount(spans, used) >= |recorded|)
    requires forall n :: 1 <= n < used ==> EntityCount(spans, n) < |recorded|
    ensures StopsAt(spans, recorded, used)
  {
  }

  lemma StartTracks(spans: seq<string>, curr: seq<string>, recorded: seq<string>)
    ensures Tracks(spans, curr, recorded, Start)
  {
    assert spans[..0] == [];
  }

  /** What the loop of `handleInput` computes on any pieces: every piece it
      takes is `Reconciled`, `entityIndex` is the number of entity pieces
      taken, the names it keeps are the recorded names still shown at
      their ordinal, a mismatch is flagged exactly when some ordinal's name
      changed, and it stops as `StopsAt` says. */
  lemma ScanFromStart(spans: seq<string>, curr: seq<string>, recorded: seq<string>)
    ensures var st := ScanFrom(spans, curr, recorded, Start);
            Tracks(spans, curr, recorded, st) && StopsAt(spans, recorded, st.used)
  {
    StartTracks(spans, curr, recorded);
    if spans != [] {
      assert spans[1..] == spans[Start.used + 1..];
      var next := ScanStep(Start, spans[0], curr, recorded);
      StepTracks(spans, curr, recorded, Start);
      if next.index < |recorded| {
        ScanTracks(spans, curr, recorded, next);
      }
    }
  }

  /** `ScanFromStart` on the markup, and the early stop read back: with
      recorded names, a loop that breaks early breaks right after the
      entity piece whose ordinal is the last recorded one. */
  lemma ScanOfTracks(text: string, recorded: seq<string>)
    ensures var st := ScanOf(text, recorded);
            && Tracks(Spans(text), GetEntityNames(text), recorded, st)
            && StopsAt(Spans(text), recorded, st.used)
            && (st.used < |Spans(text)| && 0 < |recorded| ==>
                  HasEntity(Spans(text)[st.used - 1]) && st.index == |recorded|)
  {
    var spans := Spans(text);
    var st := ScanOf(text, recorded);
    ScanFromStart(spans, GetEntityNames(text), recorded);
    if st.used < |spans| && 0 < |recorded| {
      if st.used > 1 {
        assert EntityCount(spans, st.used - 1) < |recorded|;
      }
    }
  }

  // ---------------------------------------------------------------------
  // The properties of handleInput
  // ---------------------------------------------------------------------

  /** `xs` is `ys` with some elements left out, order kept. */
  predicate IsSubsequence(xs: seq<string>, ys: seq<string>)
    decreases |ys|
  {
    xs == [] ||
    (ys != [] && ((xs[0] == ys[0] && IsSubsequence(xs[1..], ys[1..])) || IsSubsequence(xs, ys[1..])))
  }

  lemma {:induction false} SubsequenceSnoc(xs: seq<string>, ys: seq<string>, y: string)
    requires IsSubsequence(xs, ys)
    ensures IsSubsequence(xs, ys + [y]) && IsSubsequence(xs + [y], ys + [y])
    decreases |ys|
  {
    if ys == [] {
      assert xs == [] && xs + [y] == [y] && ys + [y] == [y];
      assert IsSubsequence([y][1..], [y][1..]);
    } else {
      assert (ys + [y])[0] == ys[0] && (ys + [y])[1..] == ys[1..] + [y];
      if xs == [] {
        SubsequenceSnoc(xs, ys[1..], y);
        assert xs + [y] == [y];
      } else {
        assert (xs + [y])[0] == xs[0] && (xs + [y])[1..] == xs[1..] + [y];
        if xs[0] == ys[0] && IsSubsequence(xs[1..], ys[1..]) {
          SubsequenceSnoc(xs[1..], ys[1..], y);
        } else {
          SubsequenceSnoc(xs, ys[1..], y);
        }
      }
    }
  }

  lemma {:induction false} SubsequenceLength(xs: seq<string>, ys: seq<string>)
    requires IsSubsequence(xs, ys)
    ensures |xs| <= |ys|
    decreases |ys|
  {
    if xs != [] {
      if xs[0] == ys[0] && IsSubsequence(xs[1..], ys[1..]) {
        SubsequenceLength(xs[1..], ys[1..]);
      } else {
        SubsequenceLength(xs, ys[1..]);
      }
    }
  }

  /** The kept names are the recorded names in order with some left out:
      never more than the recorded ones, nor than the positions looked at. */
  lemma {:induction false} KeptSubsequence(curr: seq<string>, recorded: seq<string>, n: nat)
    ensures n <= |recorded| ==> IsSubsequence(Kept(curr, recorded, n), recorded[..n])
    ensures IsSubsequence(Kept(curr, recorded, n), recorded)
    ensures |Kept(curr, recorded, n)| <= n && |Kept(curr, recorded, n)| <= |recorded|
  {
    if n == 0 {
      assert Kept(curr, recorded, n) == [];
    } else {
      KeptSubsequence(curr, recorded, n - 1);
      var prev := Kept(curr, recorded, n - 1);
      if n <= |recorded| {
        assert recorded[..n] == recorded[..n - 1] + [recorded[n - 1]];
        SubsequenceSnoc(prev, recorded[..n - 1], recorded[n - 1]);
        var cur := Kept(curr, recorded, n);
        if At(curr, n - 1) == Some(recorded[n - 1]) {
          assert cur == prev + [recorded[n - 1]];
        } else {
          assert cur == prev;
        }
        assert IsSubsequence(cur, recorded[..n]);
        SubsequenceFull(cur, recorded, n);
      } else {
        assert Kept(curr, recorded, n) == prev;
      }
    }
  }

  lemma {:induction false} SubsequenceFull(xs: seq<string>, ys: seq<string>, n: nat)
    requires n <= |ys| && IsSubsequence(xs, ys[..n])
    ensures IsSubsequence(xs, ys) && |xs| <= |ys|
    decreases |ys| - n
  {
    if n == |ys| {
      assert ys[..n] == ys;
      SubsequenceLength(xs, ys);
    } else {
      assert ys[..n + 1] == ys[..n] + [ys[n]];
      SubsequenceSnoc(xs, ys[..n], ys[n]);
      SubsequenceFull(xs, ys, n + 1);
    }
  }

  /** When no name changed, every recorded name among the positions looked
      at is kept. */
  lemma {:induction false} KeptUnchanged(curr: seq<string>, recorded: seq<string>, n: nat)
    requires n <= |recorded| && !Mismatched(curr, recorded, n)
    ensures Kept(curr, recorded, n) == recorded[..n]
  {
    if n > 0 {
      assert At(curr, n - 1) == At(recorded, n - 1);
      KeptUnchanged(curr, recorded, n - 1);
      assert recorded[..n] == recorded[..n - 1] + [recorded[n - 1]];
    }
  }

  /** The names `handleInput` stores: none when no list was recorded, and
      otherwise exactly the recorded names whose entity span at the same
      position still shows that name, among the ordinals of the entity
      pieces the loop took before it stopped (`StopsAt`); an in-order
      subsequence of the recorded list. A mismatch is flagged exactly when some position
      among those looked at changed; when none did, all recorded names
      looked at are kept and the markup only loses its first `<br>`. */
  lemma HandleInputEntities(text: string, entities: Option<seq<string>>)
    ensures entities.None? ==> HandleInput(text, entities).1 == []
    ensures entities.Some? ==>
              var st := ScanOf(text, entities.value);
              StopsAt(Spans(text), entities.value, st.used)
              && st.index == EntityCount(Spans(text), st.used)
              && HandleInput(text, entities).1 == Kept(GetEntityNames(text), entities.value, st.index)
              && IsSubsequence(HandleInput(text, entities).1, entities.value)
              && |HandleInput(text, entities).1| <= |entities.value|
              && (st.mismatch <==> Mismatched(GetEntityNames(text), entities.value, st.index))
    ensures entities.Some? && !Mismatched(GetEntityNames(text), entities.value, ScanOf(text, entities.value).index) ==>
              HandleInput(text, entities).0 == RemoveBr(text)
              && (ScanOf(text, entities.value).index <= |entities.value| ==>
                    HandleInput(text, entities).1 == entities.value[..ScanOf(text, entities.value).index])
  {
    if entities.Some? {
      var recorded := entities.value;
      var st := ScanOf(text, recorded);
      ScanOfTracks(text, recorded);
      KeptSubsequence(GetEntityNames(text), recorded, st.index);
      if !Mismatched(GetEntityNames(text), recorded, st.index) && st.index <= |recorded| {
        KeptUnchanged(GetEntityNames(text), recorded, st.index);
      }
    }
  }

  /** The stored list is empty without a recorded one and otherwise an
      in-order subsequence of it. */
  lemma HandleInputShrinks(text: string, entities: Option<seq<string>>)
    ensures entities.None? ==> HandleInput(text, entities).1 == []
    ensures entities.Some? ==> IsSubsequence(HandleInput(text, entities).1, entities.value)
  {
    HandleInputEntities(text, entities);
  }

  /** The pieces of the markup and the text after its last closing tag
      put together give the markup back. */
  lemma SpansTail(text: string)
    ensures Concat(Spans(text)) + Tail(text) == text
  {
    var ends := SpanEnds(text, 0);
    var k := if ends == [] then 0 else ends[|ends| - 1];
    SpansUpTo(text, k);
    TailFrom(text, k);
    SplitAt(text, k);
  }

  /** The pieces put together, given where the last closing tag ends. */
  lemma SpansUpTo(t: string, k: nat)
    requires var ends := SpanEnds(t, 0);
             if ends == [] then k == 0 else ends[|ends| - 1] == k
    ensures k <= |t| && Concat(Spans(t)) == t[..k]
  {
    SpansCover(t);
  }

  /** What follows the last closing tag, given where that tag ends (0 when
      there is none). */
  lemma TailFrom(t: string, k: nat)
    requires var ends := SpanEnds(t, 0);
             if ends == [] then k == 0 else ends[|ends| - 1] == k
    ensures k <= |t| && Tail(t) == t[k..]
  {
  }

  /** The corrected rebuild splits into the pieces taken, the pieces left
      and the tail. */
  lemma RebuiltSplit(text: string, pieces: seq<string>, used: nat)
    requires used <= |Spans(text)|
    ensures Concat(pieces) + Untaken(text, used) == Concat(pieces + Spans(text)[used..]) + Tail(text)
  {
    var rest := Spans(text)[used..];
    assert Untaken(text, used) == Concat(rest) + Tail(text);
    ConcatThen(pieces, rest, Tail(text));
  }

  lemma RebuiltSame(text: string, pieces: seq<string>, used: nat)
    requires used <= |Spans(text)| && pieces == Spans(text)[..used]
    ensures Concat(pieces) + Untaken(text, used) == text
  {
    var spans := Spans(text);
    RebuiltSplit(text, pieces, used);
    assert pieces + spans[used..] == spans;
    SpansTail(text);
  }

  /** The corrected rebuild drops nothing: it is every piece of the markup,
      the ones the loop took as `Reconciled` says (an entity piece demoted
      exactly when its name changed at its ordinal), the others unchanged,
      followed by the text after the last closing tag; without a mismatch
      it is the markup itself. */
  lemma RebuiltKeepsAll(text: string, recorded: seq<string>)
    ensures var st := ScanOf(text, recorded);
            && Tracks(Spans(text), GetEntityNames(text), recorded, st)
            && StopsAt(Spans(text), recorded, st.used)
            && (forall j :: 0 <= j < st.used ==> st.pieces[j] == Reconciled(Spans(text), GetEntityNames(text), recorded, j))
            && Rebuilt(text, st) == Concat(st.pieces + Spans(text)[st.used..]) + Tail(text)
            && (!st.mismatch ==> Rebuilt(text, st) == text)
  {
    var st := ScanOf(text, recorded);
    ScanOfTracks(text, recorded);
    ReconciledPiecesAt(Spans(text), GetEntityNames(text), recorded, st.used);
    RebuiltSplit(text, st.pieces, st.used);
    if !st.mismatch {
      RebuiltSame(text, st.pieces, st.used);
    }
  }

  /** A seam found at the front of `u`: the opening tag, a run without `<`,
      and the closing tag and opening tag that the merge deletes. */
  lemma SeamShape(u: string, b: bool)
    requires PlainSeam(u, b).Some?
    ensures var mt := PlainSeam(u, b).value;
            var q := mt.len - |CloseTag + PlainOpen|;
            && StartsWith(u, PlainOpen) && |PlainOpen| <= q
            && NoneOf(u[|PlainOpen|..q], {'<'})
            && u[q..mt.len] == CloseTag + PlainOpen
            && mt.out == u[..q]
  {
    var v := u[|PlainOpen|..];
    var k := FirstOf(v, {'<'}).value;
    FirstOfLeftmost(v, {'<'});
    assert u[|PlainOpen|..|PlainOpen| + k] == v[..k];
    assert u[|PlainOpen| + k..][..|CloseTag + PlainOpen|] == u[|PlainOpen| + k..|PlainOpen| + k + |CloseTag + PlainOpen|];
  }

  /** The seam facts moved from the front of `t[p..]` to `t`. */
  lemma SeamAt(t: string, p: nat, len: nat, out: string)
    requires p + len <= |t| && PlainSeam(t[p..], p == 0) == Some(Match(len, out))
    ensures var q := p + len - |CloseTag + PlainOpen|;
            && StartsWith(t[p..], PlainOpen) && p + |PlainOpen| <= q
            && NoneOf(t[p + |PlainOpen|..q], {'<'})
            && t[q..p + len] == CloseTag + PlainOpen
            && t[..p] + out + t[p + len..] == t[..q] + t[p + len..]
  {
    var u := t[p..];
    SeamShape(u, p == 0);
    var q := len - |CloseTag + PlainOpen|;
    assert u[|PlainOpen|..q] == t[p + |PlainOpen|..p + q];
    assert u[q..len] == t[p + q..p + len];
    assert t[..p] + u[..q] == t[..p + q];
  }

  /** `MergeFirst` deletes exactly one `</span><span>`: the one closing the
      first plain span that is followed by another, after a run without
      `<`; when there is none the markup stays as it is. */
  lemma MergeDeletesSeam(t: string)
    ensures FirstMatch(PlainSeam, t, true).None? ==> MergeFirst(t) == t
    ensures FirstMatch(PlainSeam, t, true).Some? ==>
              var (p, mt) := FirstMatch(PlainSeam, t, true).value;
              var q := p + mt.len - |CloseTag + PlainOpen|;
              && StartsWith(t[p..], PlainOpen) && p + |PlainOpen| <= q
              && NoneOf(t[p + |PlainOpen|..q], {'<'})
              && t[q..p + mt.len] == CloseTag + PlainOpen
              && MergeFirst(t) == t[..q] + t[p + mt.len..]
  {
    if FirstMatch(PlainSeam, t, true).Some? {
      SeamFound(t, FirstMatch(PlainSeam, t, true).value.0, FirstMatch(PlainSeam, t, true).value.1);
    }
  }

  /** The first seam, given where it starts and what it matched. */
  lemma SeamFound(t: string, p: nat, mt: Match)
    requires FirstMatch(PlainSeam, t, true) == Some((p, mt))
    ensures var q := p + mt.len - |CloseTag + PlainOpen|;
            && StartsWith(t[p..], PlainOpen) && p + |PlainOpen| <= q
            && NoneOf(t[p + |PlainOpen|..q], {'<'})
            && t[q..p + mt.len] == CloseTag + PlainOpen
            && MergeFirst(t) == t[..q] + t[p + mt.len..]
  {
    FirstMatchAt(PlainSeam, t, true, p, mt);
    RewriteFirstAt(PlainSeam, t, true, p, mt);
    SeamAt(t, p, mt.len, mt.out);
  }

  /** A piece holding an entity span holds an entity opening tag. */
  lemma EntityHasOpenTag(piece: string)
    requires HasEntity(piece)
    ensures FirstMatch(EntityOpenTag, piece, true).Some?
  {
    FirstMatchFound(EntityName, piece, true);
    var q := FirstMatch(EntityName, piece, true).value.0;
    assert EntityTagAt(piece[q..]).Some?;
    assert EntityOpenTag(piece[q..], q == 0).Some?;
    FirstMatchLeftmost(EntityOpenTag, piece, true);
  }

  /** `piece` holds an entity opening tag of `len` characters at `p`: the
      prefix `<span class="entity"`, then no `>` up to the `>` ending it. */
  predicate OpenTagShape(piece: string, p: nat, len: nat)
  {
    && p + len <= |piece| && |EntityOpenPrefix| < len && StartsWith(piece[p..], EntityOpenPrefix)
    && piece[p + len - 1] == '>' && NoneOf(piece[p + |EntityOpenPrefix|..p + len - 1], {'>'})
  }

  /** The opening-tag facts moved from the front of `piece[p..]` to `piece`. */
  lemma OpenTagAt(piece: string, p: nat, len: nat)
    requires p + len <= |piece| && EntityOpenTag(piece[p..], p == 0) == Some(Match(len, PlainOpen))
    ensures OpenTagShape(piece, p, len)
  {
    var u := piece[p..];
    var v := u[|EntityOpenPrefix|..];
    FirstOfLeftmost(v, {'>'});
    assert u[|EntityOpenPrefix|..len - 1] == v[..len - 1 - |EntityOpenPrefix|];
    assert u[|EntityOpenPrefix|..len - 1] == piece[p + |EntityOpenPrefix|..p + len - 1];
  }

  /** `Demote` puts `<span>` where the first entity opening tag was. */
  lemma DemoteSplice(piece: string)
    ensures FirstMatch(EntityOpenTag, piece, true).Some? ==>
              var (p, mt) := FirstMatch(EntityOpenTag, piece, true).value;
              Demote(piece) == piece[..p] + PlainOpen + piece[p + mt.len..]
  {
    FirstMatchFound(EntityOpenTag, piece, true);
  }

  /** `Demote` replaces the first entity opening tag, up to its first `>`,
      by `<span>` and keeps everything else, the entity text included. */
  lemma DemoteReplacesOpenTag(piece: string)
    requires HasEntity(piece)
    ensures FirstMatch(EntityOpenTag, piece, true).Some?
    ensures var (p, mt) := FirstMatch(EntityOpenTag, piece, true).value;
            OpenTagShape(piece, p, mt.len) && Demote(piece) == piece[..p] + PlainOpen + piece[p + mt.len..]
  {
    EntityHasOpenTag(piece);
    var (p, mt) := FirstMatch(EntityOpenTag, piece, true).value;
    OpenTagFound(piece, p, mt);
  }

  /** The first entity opening tag, given where it starts and what it matched. */
  lemma OpenTagFound(piece: string, p: nat, mt: Match)
    requires FirstMatch(EntityOpenTag, piece, true) == Some((p, mt))
    ensures OpenTagShape(piece, p, mt.len) && Demote(piece) == piece[..p] + PlainOpen + piece[p + mt.len..]
  {
    FirstMatchAt(EntityOpenTag, piece, true, p, mt);
    OpenTagAt(piece, p, mt.len);
    RewriteFirstAt(EntityOpenTag, piece, true, p, mt);
  }
}
