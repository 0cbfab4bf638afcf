/** The state kept by static/script.js in module-level variables, as one
    object: the selected completion button, the newest accepted completion
    response, the number of completion buttons on the page, the answer
    candidate on show, and the content of the question field together with
    the entity names and QIDs recorded for it. DOM updates (colours, button
    elements, tooltips, answer paragraphs) are reported as results. */
module Widget {
  import opened Strings
  import opened Regex
  import opened Markup
  import Reconcile

  /** A JavaScript number as this code meets one: an integer, or `NaN`,
      which `x % 0` gives and which every later `+`, `%` and `<` keeps. */
  datatype Num = Int(v: int) | NaN

  /** JavaScript's `a % n`: the remainder of truncating division, which
      has the sign of `a`; `NaN` for `n == 0`. */
  function JsRem(a: int, n: nat): (r: Num)
    ensures n == 0 <==> r.NaN?
    ensures n > 0 ==> -(n as int) < r.v < n
    ensures n > 0 ==> (a >= 0 ==> r.v >= 0) && (a <= 0 ==> r.v <= 0)
    ensures -(n as int) < a < n ==> r == Int(a)
    ensures n > 0 && (a == n || a == -(n as int)) ==> r == Int(0)
  {
    if n == 0 then NaN
    else if a >= 0 then RemFacts(a, n); Int(a % n)
    else RemFacts(-a, n); Int(-((-a) % n))
  }

  lemma RemFacts(a: nat, n: nat)
    requires n > 0
    ensures 0 <= a % n < n
    ensures a < n ==> a % n == a
    ensures a == n ==> a % n == 0
  {
  }

  /** The arithmetic of `navigateCompletions`: step the selection by
      `direction`, take JavaScript's remainder by the number of buttons,
      turn a remainder of -2 into -1 (a patch in the source), and move a
      negative value back into range. */
  function Wrap(selected: Num, direction: int, numButtons: nat): (r: Num)
    ensures numButtons == 0 || selected.NaN? ==> r.NaN?
    ensures numButtons > 0 && selected.Int? ==> r.Int? && 0 <= r.v < numButtons
  {
    match selected
    case NaN => NaN
    case Int(s) =>
      match JsRem(s + direction, numButtons)
      case NaN => NaN
      case Int(rem) =>
        var patched := if rem == -2 then -1 else rem;
        Int(if patched < 0 then patched + numButtons else patched)
  }

  /** With the selection on a button, the arrow keys move it to the
      neighbouring button and wrap around at both ends. */
  lemma WrapArrows(s: int, numButtons: nat)
    requires 0 <= s < numButtons
    ensures Wrap(Int(s), 1, numButtons) == Int(if s == numButtons - 1 then 0 else s + 1)
    ensures Wrap(Int(s), -1, numButtons) == Int(if s == 0 then numButtons - 1 else s - 1)
  {
  }

  /** The four buttons that page through the answer candidates. */
  datatype NavButtons = NavButtons(firstDisabled: bool, previousDisabled: bool,
                                   nextDisabled: bool, lastDisabled: bool)

  /** `updateNavigationButtons`: which paging buttons are disabled. */
  function NavigationButtons(currIndex: int, numAnswers: nat): (r: NavButtons)
    ensures r.firstDisabled == r.previousDisabled && r.nextDisabled == r.lastDisabled
    ensures r.previousDisabled <==> currIndex < 1
    ensures r.nextDisabled <==> currIndex + 1 >= numAnswers
  {
    NavButtons(currIndex - 1 < 0, currIndex - 1 < 0, currIndex + 1 >= numAnswers, currIndex + 1 >= numAnswers)
  }

  /** `currIndex` is `-1` (nothing shown yet) or a candidate index. */
  predicate IndexValid(currIndex: int, numAnswers: nat)
  {
    currIndex == -1 || 0 <= currIndex < numAnswers
  }

  /** `moveIndex`: the index it moves to, if it is in range. */
  function MovedIndex(currIndex: int, numAnswers: nat, index: int): (r: int)
    ensures IndexValid(currIndex, numAnswers) ==> IndexValid(r, numAnswers)
    ensures r == currIndex || 0 <= r < numAnswers
  {
    if index < 0 || index >= numAnswers then currIndex else index
  }

  /** Where button `button` of `navigateResults` asks to go: 0 first,
      1 previous, 2 next, 3 last; any other value asks for nothing. */
  function NavigationTarget(currIndex: int, numAnswers: nat, button: int): Option<int>
  {
    if button == 0 then Some(0)
    else if button == 1 then Some(currIndex - 1)
    else if button == 2 then Some(currIndex + 1)
    else if button == 3 then Some(numAnswers - 1)
    else None
  }

  /** The index after pressing `button`. */
  function NavigatedIndex(currIndex: int, numAnswers: nat, button: int): (r: int)
    ensures IndexValid(currIndex, numAnswers) ==> IndexValid(r, numAnswers)
  {
    match NavigationTarget(currIndex, numAnswers, button)
    case None => currIndex
    case Some(t) => MovedIndex(currIndex, numAnswers, t)
  }

  /** A paging button is disabled exactly when pressing it would leave the
      candidate on show where it is. */
  lemma {:induction false} DisabledIffStays(currIndex: int, numAnswers: nat)
    requires IndexValid(currIndex, numAnswers) && (currIndex == -1 ==> numAnswers == 0)
    ensures NavigationButtons(currIndex, numAnswers).firstDisabled <==> NavigatedIndex(currIndex, numAnswers, 0) == currIndex
    ensures NavigationButtons(currIndex, numAnswers).previousDisabled <==> NavigatedIndex(currIndex, numAnswers, 1) == currIndex
    ensures NavigationButtons(currIndex, numAnswers).nextDisabled <==> NavigatedIndex(currIndex, numAnswers, 2) == currIndex
    ensures NavigationButtons(currIndex, numAnswers).lastDisabled <==> NavigatedIndex(currIndex, numAnswers, 3) == currIndex
  {
  }

  /** A completion as the completion service reports it. */
  datatype CompletionResult = CompletionResult(completion: string, wikifiedCompletion: string,
                                               matchedAlias: string, qids: string)

  /** The body of a completion response; `Empty` is a response of length 0. */
  datatype CompletionReply = Empty | Reply(timestamp: int, results: seq<CompletionResult>)

  /** A completion button: its id, its markup, and the QIDs and original
      text stored with it. */
  datatype Button = Button(id: string, html: string, qids: string, original: string)

  function ButtonId(i: nat): string
  {
    "button" + NatToString(i)
  }

  /** The button shown for the `i`-th completion. */
  function ButtonFor(result: CompletionResult, i: nat): Button
  {
    Button(ButtonId(i), PutTextIntoSpans(AddAlias(result.wikifiedCompletion, result.matchedAlias)),
           result.qids, result.completion)
  }

  /** The body of the button loop: the completion with its alias shown,
      put into spans. */
  method MakeButton(result: CompletionResult, i: nat) returns (button: Button)
    ensures button == ButtonFor(result, i)
    ensures button.id == ButtonId(i) && button.qids == result.qids && button.original == result.completion
  {
    var html := AddAlias(result.wikifiedCompletion, result.matchedAlias);
    html := PutTextIntoSpans(html);
    button := Button(ButtonId(i), html, result.qids, result.completion);
  }

  /** `f` applied to each of the first `n` elements with its index. */
  function MapUpTo<A, B>(f: (A, nat) -> B, xs: seq<A>, n: nat): (r: seq<B>)
    requires n <= |xs|
    ensures |r| == n
  {
    if n == 0 then [] else MapUpTo(f, xs, n - 1) + [f(xs[n - 1], n - 1)]
  }

  /** Element `k` of the first `n` is `f` of element `k`. */
  lemma {:induction false} MapUpToAt<A, B>(f: (A, nat) -> B, xs: seq<A>, n: nat)
    requires n <= |xs|
    ensures forall k :: 0 <= k < n ==> MapUpTo(f, xs, n)[k] == f(xs[k], k)
  {
    if n > 0 {
      MapUpToAt(f, xs, n - 1);
    }
  }

  /** The loop of the callback over the completions: one button each. */
  method MakeButtons(results: seq<CompletionResult>) returns (buttons: seq<Button>)
    ensures |buttons| == |results|
    ensures forall k :: 0 <= k < |buttons| ==> buttons[k] == ButtonFor(results[k], k)
  {
    buttons := [];
    for i := 0 to |results|
      invariant buttons == MapUpTo(ButtonFor, results, i)
    {
      var button := MakeButton(results[i], i);
      buttons := buttons + [button];
    }
    MapUpToAt(ButtonFor, results, |results|);
  }

  class Widget {
    var selectedButton: Num
    var lastResultLen: nat
    var maxTimestamp: int
    var currIndex: int
    var numAnswers: nat
    /** The markup in the question field. */
    var question: string
    /** The entity names recorded for the question field (`undefined` is `None`). */
    var entities: Option<seq<string>>
    /** The value of the hidden QID field. */
    var qids: string

    /** The paging index is -1 or a candidate's position; nothing else is
        constrained. The constructor sets it up, and `MoveIndex` and
        `NavigateResults` keep it. `DisplayAqquResults` sets it up from the
        loaded page (index -1), which is the only state the source calls it
        in: once, from the ready handler (static/script.js:677-682). From
        a later state a smaller result count could leave the old index out
        of range. */
    predicate Valid()
      reads this
    {
      IndexValid(currIndex, numAnswers)
    }

    /** The page as loaded: the question field has been converted into
        markup and the QIDs copied from the field's data. */
    constructor (text: string, qidsData: string)
      ensures Valid()
      ensures selectedButton == Int(0) && lastResultLen == 0 && maxTimestamp == 0
      ensures currIndex == -1 && numAnswers == 0
      ensures question == InputSpansFrom(WrapPlainRuns(text), 0)
      ensures entities == None && qids == qidsData
    {
      selectedButton := Int(0);
      lastResultLen := 0;
      maxTimestamp := 0;
      currIndex := -1;
      numAnswers := 0;
      var markedHtml := PutTextIntoSpansInput(text);
      question := markedHtml;
      entities := None;
      qids := qidsData;
    }

    /** `navigateCompletions`, given the number of buttons on the page. */
    method NavigateCompletions(direction: int, numButtons: nat)
      modifies this
      ensures selectedButton == Wrap(old(selectedButton), direction, numButtons)
      ensures lastResultLen == old(lastResultLen) && maxTimestamp == old(maxTimestamp)
      ensures currIndex == old(currIndex) && numAnswers == old(numAnswers)
      ensures question == old(question) && entities == old(entities) && qids == old(qids)
    {
      var next := JsRem(if selectedButton.Int? then selectedButton.v + direction else 0, numButtons);
      if selectedButton.NaN? {
        next := NaN;
      }
      if next == Int(-2) {
        next := Int(-1);
      }
      if next.Int? && next.v < 0 {
        next := Int(next.v + numButtons);
      }
      selectedButton := next;
    }

    /** The start of `getCompletions`: the selection goes back to the first
        button, and the question is put into the form the completion
        service reads: `<br>` removed, spans turned back into the bracketed
        form, and the mentions rewritten into QIDs when QIDs are recorded. */
    method GetCompletions() returns (query: string)
      modifies this
      ensures selectedButton == Int(0)
      ensures lastResultLen == old(lastResultLen) && maxTimestamp == old(maxTimestamp)
      ensures currIndex == old(currIndex) && numAnswers == old(numAnswers)
      ensures question == old(question) && entities == old(entities) && qids == old(qids)
      ensures var flat := RemoveHtmlInputField(ReplaceAll(question, "<br>", ""));
              query == if qids == "" then flat
                       else QidLoop(flat, AllOutputs(MentionWhole, flat, true), Split(qids, ','), 0)
    {
      selectedButton := Int(0);
      query := ReplaceAll(question, "<br>", "");
      query := RemoveHtmlInputField(query);
      if qids != "" {
        query := GetQidQuestion(query, qids);
      }
    }

    /** `removeCompletionButtons`: the ids of the buttons it removes. */
    method RemoveCompletionButtons(newResultLength: nat) returns (removed: seq<string>)
      modifies this
      ensures |removed| == old(lastResultLen)
      ensures forall k :: 0 <= k < |removed| ==> removed[k] == ButtonId(k)
      ensures lastResultLen == newResultLength
      ensures selectedButton == old(selectedButton) && maxTimestamp == old(maxTimestamp)
      ensures currIndex == old(currIndex) && numAnswers == old(numAnswers)
      ensures question == old(question) && entities == old(entities) && qids == old(qids)
    {
      removed := [];
      for i := 0 to lastResultLen
        invariant |removed| == i
        invariant forall k :: 0 <= k < i ==> removed[k] == ButtonId(k)
      {
        removed := removed + [ButtonId(i)];
      }
      lastResultLen := newResultLength;
    }

    /** The callback of `getCompletions`: an empty response, or one older
        than the newest accepted one, changes nothing; otherwise the old
        buttons go and one button per completion is built. */
    method OnCompletionResponse(reply: CompletionReply) returns (removed: seq<string>, buttons: seq<Button>)
      modifies this
      ensures reply.Empty? || reply.timestamp < old(maxTimestamp) ==>
                removed == [] && buttons == [] && lastResultLen == old(lastResultLen)
                && maxTimestamp == old(maxTimestamp)
      ensures reply.Reply? && reply.timestamp >= old(maxTimestamp) ==>
                maxTimestamp == reply.timestamp && lastResultLen == |reply.results|
                && |removed| == old(lastResultLen) && |buttons| == |reply.results|
                && (forall k :: 0 <= k < |removed| ==> removed[k] == ButtonId(k))
                && (forall k :: 0 <= k < |buttons| ==> buttons[k] == ButtonFor(reply.results[k], k))
      ensures maxTimestamp >= old(maxTimestamp)
      ensures selectedButton == old(selectedButton)
      ensures currIndex == old(currIndex) && numAnswers == old(numAnswers)
      ensures question == old(question) && entities == old(entities) && qids == old(qids)
    {
      removed, buttons := [], [];
      if reply.Empty? {
        return;
      }
      if reply.timestamp < maxTimestamp {
        return;
      }
      maxTimestamp := reply.timestamp;
      removed := RemoveCompletionButtons(|reply.results|);
      buttons := MakeButtons(reply.results);
    }

    /** `handleCompletionButtonClick`: the chosen completion is put into the
        question field as markup, its QIDs are stored, and the names of its
        entity spans are recorded. */
    method ChooseCompletion(original: string, buttonQids: string)
      modifies this
      ensures question == InputSpansFrom(WrapPlainRuns(original), 0)
      ensures qids == buttonQids && entities == Some(GetEntityNames(question))
      ensures selectedButton == old(selectedButton) && lastResultLen == old(lastResultLen)
      ensures maxTimestamp == old(maxTimestamp)
      ensures currIndex == old(currIndex) && numAnswers == old(numAnswers)
    {
      var markedHtml := PutTextIntoSpansInput(original);
      question := markedHtml;
      qids := buttonQids;
      entities := Some(GetEntityNames(markedHtml));
    }

    /** `handleInput`, with the markup after the last piece its loop takes
        kept: the question field is reconciled with the recorded entity
        names, which are cut down to those still shown. */
    method HandleInput()
      modifies this
      ensures question == Reconcile.HandleInput(old(question), old(entities)).0
      ensures entities == Some(Reconcile.HandleInput(old(question), old(entities)).1)
      ensures old(entities).None? ==> entities == Some([])
      ensures old(entities).Some? ==> Reconcile.IsSubsequence(entities.value, old(entities).value)
      ensures qids == old(qids) && selectedButton == old(selectedButton)
      ensures lastResultLen == old(lastResultLen) && maxTimestamp == old(maxTimestamp)
      ensures currIndex == old(currIndex) && numAnswers == old(numAnswers)
    {
      Reconcile.HandleInputShrinks(question, entities);
      var text, newEntities := Reconcile.HandleInputText(question, entities);
      question := text;
      entities := Some(newEntities);
    }

    /** `moveIndex`. */
    method MoveIndex(index: int) returns (success: bool)
      modifies this
      ensures success <==> 0 <= index < numAnswers
      ensures currIndex == MovedIndex(old(currIndex), numAnswers, index)
      ensures success ==> currIndex == index
      ensures !success ==> currIndex == old(currIndex)
      ensures old(Valid()) ==> Valid()
      ensures numAnswers == old(numAnswers) && selectedButton == old(selectedButton)
      ensures lastResultLen == old(lastResultLen) && maxTimestamp == old(maxTimestamp)
      ensures question == old(question) && entities == old(entities) && qids == old(qids)
    {
      if index < 0 || index >= numAnswers {
        return false;
      } else {
        currIndex := index;
        return true;
      }
    }

    /** `navigateResults`: the new paging buttons when the index moved. */
    method NavigateResults(button: int) returns (buttons: Option<NavButtons>)
      modifies this
      ensures currIndex == NavigatedIndex(old(currIndex), numAnswers, button)
      ensures buttons.Some? <==> NavigationTarget(old(currIndex), numAnswers, button).None?
                                 || 0 <= NavigationTarget(old(currIndex), numAnswers, button).value < numAnswers
      ensures buttons.Some? ==> buttons.value == NavigationButtons(currIndex, numAnswers)
      ensures old(Valid()) ==> Valid()
      ensures numAnswers == old(numAnswers) && selectedButton == old(selectedButton)
      ensures lastResultLen == old(lastResultLen) && maxTimestamp == old(maxTimestamp)
      ensures question == old(question) && entities == old(entities) && qids == old(qids)
    {
      var success := true;
      if button == 0 {
        success := MoveIndex(0);
      } else if button == 1 {
        success := MoveIndex(currIndex - 1);
      } else if button == 2 {
        success := MoveIndex(currIndex + 1);
      } else if button == 3 {
        success := MoveIndex(numAnswers - 1);
      }
      buttons := None;
      if success {
        buttons := Some(NavigationButtons(currIndex, numAnswers));
      }
    }

    /** `displayAqquResults`, given the number of answer candidates on the
        page (`None` when there is no result): the first candidate is shown
        when there is one. */
    method DisplayAqquResults(result: Option<nat>) returns (buttons: Option<NavButtons>)
      modifies this
      ensures result.None? ==> buttons.None? && numAnswers == old(numAnswers) && currIndex == old(currIndex)
      ensures result.Some? ==> numAnswers == result.value
      ensures result.Some? && result.value > 0 ==> currIndex == 0 && buttons == Some(NavigationButtons(0, numAnswers))
      ensures result.Some? && result.value == 0 ==> currIndex == old(currIndex) && buttons.None?
      ensures old(currIndex) == -1 ==> Valid()
      ensures selectedButton == old(selectedButton)
      ensures lastResultLen == old(lastResultLen) && maxTimestamp == old(maxTimestamp)
      ensures question == old(question) && entities == old(entities) && qids == old(qids)
    {
      buttons := None;
      if result.Some? {
        numAnswers := result.value;
        var moved := MoveIndex(0);
        if moved {
          buttons := Some(NavigationButtons(currIndex, numAnswers));
        }
      }
    }
  }
}
