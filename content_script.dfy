/** The stateful part of the content script: the retry loop that inserts the
    "Copy to MD" button into the "Ask ChatGPT" bubble, the remembered
    selection, and what the two copy buttons put on the clipboard.

    The page is abstracted away: whether the bubble container is found is an
    input, the live selection is an input, and the browser's timer queue is
    the set of timer ids still scheduled (setTimeout adds one, clearTimeout
    and running the callback remove it). */
module ContentScript {
  import opened JsString
  import opened Markdown

  datatype Option<T> = None | Some(value: T)

  /** What window.getSelection() reports: no selection object at all, or one
      with a number of ranges and its text. */
  datatype Selection = NoSelection | Ranges(rangeCount: nat, text: string)

  predicate HasRange(sel: Selection) {
    sel.Ranges? && sel.rangeCount > 0
  }

  /** isValidSelection's verdict: a range whose trimmed text is at least
      3 UTF-16 units long. */
  predicate ValidSelection(sel: Selection)
    ensures ValidSelection(sel) ==> Remembered(sel) && |Trim(sel.text)| >= 2
    ensures HasRange(sel) && |Trim(sel.text)| >= 3 ==> ValidSelection(sel)
  {
    HasRange(sel) && Utf16Length(Trim(sel.text)) >= 3
  }

  /** The selections isValidSelection remembers: a range whose trimmed text
      is non-empty. */
  predicate Remembered(sel: Selection) {
    HasRange(sel) && !AllWhitespace(sel.text)
  }

  /** Failed lookups after which the retry loop gives up. */
  const MaxBubbleAttempts: nat := 12

  /** The counter update after a failed container lookup: the new counter
      and whether a retry is scheduled. */
  function FailedAttempt(attempts: nat): (r: (nat, bool))
    ensures r.1 <==> attempts < MaxBubbleAttempts
    ensures (r.1 && r.0 == attempts + 1 && 1 <= r.0 <= MaxBubbleAttempts) || (!r.1 && r.0 == 0)
  {
    var next := attempts + 1;
    if next <= MaxBubbleAttempts then (next, true) else (0, false)
  }

  /** Number of tryInsertBubbleButton calls in a chain of failed lookups
      that starts with the counter at `attempts`, each retry being the
      callback the previous call scheduled. */
  function FailureChainCalls(attempts: nat): nat
    requires attempts <= MaxBubbleAttempts
    decreases MaxBubbleAttempts - attempts
  {
    var (next, retry) := FailedAttempt(attempts);
    1 + (if retry then FailureChainCalls(next) else 0)
  }

  /** From a zero counter a chain of failures makes exactly 13 calls and then
      stops. */
  lemma {:induction false} FailureChainLength(attempts: nat)
    requires attempts <= MaxBubbleAttempts
    ensures FailureChainCalls(attempts) == MaxBubbleAttempts + 1 - attempts
    decreases MaxBubbleAttempts - attempts
  {
    if attempts < MaxBubbleAttempts {
      FailureChainLength(attempts + 1);
    }
  }

  /** The text the bubble button's click handler reads from the live
      selection: its string when it has a range, otherwise empty. It is
      non-blank exactly when isValidSelection would remember the selection. */
  function LiveText(sel: Selection): (r: string)
    ensures HasRange(sel) ==> r == sel.text
    ensures !HasRange(sel) ==> r == ""
    ensures Remembered(sel) <==> r != "" && !AllWhitespace(r)
  {
    if HasRange(sel) then sel.text else ""
  }

  /** What the bubble button copies: the live selection, or the remembered
      one when the live text is the empty string, as a blockquote; nothing
      when that text is blank. */
  function BubbleClickMarkdown(sel: Selection, remembered: string): (r: Option<string>)
    ensures var live := LiveText(sel);
            r.None? <==> (live != "" && AllWhitespace(live)) || (live == "" && AllWhitespace(remembered))
    ensures var source := if LiveText(sel) != "" then LiveText(sel) else remembered;
            r.Some? ==> r.value == ToBlockquote(source) && r.value != QuotePrefix &&
                        Join(UnquoteLines(Split(r.value, '\n')), '\n') == NormalizeText(source)
  {
    var live := LiveText(sel);
    var text := if live != "" then live else remembered;
    if text == "" || AllWhitespace(text) then None
    else
      BlockquoteOfBlank(text);
      BlockquoteRoundTrip(text);
      Some(ToBlockquote(text))
  }

  /** What the "Copy MD" button under an assistant message copies: the
      message text as a fenced code block, or nothing when it is blank. */
  function MessageCopyMarkdown(text: string): (r: Option<string>)
    ensures r.None? <==> AllWhitespace(text)
    ensures r.Some? ==> NormalizeText(text) != "" &&
                        Split(r.value, '\n') == [FenceOpen] + Split(NormalizeText(text), '\n') + [Fence]
  {
    if text == "" || AllWhitespace(text) then None
    else
      CodeBlockLines(text);
      Some(ToCodeBlock(text))
  }

  /** The scheduled retries left after clearTimeout on the handle `timer`. */
  function Cancel(pending: set<nat>, timer: Option<nat>): set<nat> {
    if timer.Some? then pending - {timer.value} else pending
  }

  /** The content script's module-level state for the selection bubble. */
  class BubbleController {
    var hasButton: bool            // bubbleButton is not null
    var timer: Option<nat>         // bubbleInsertTimer
    var attempts: nat              // bubbleInsertAttempts
    var lastSelectionText: string
    var pending: set<nat>          // retry callbacks scheduled and not yet run or cleared
    var nextTimerId: nat

    /** Holds between calls and while a retry callback is being run. */
    ghost predicate Consistent()
      reads this
    {
      attempts <= MaxBubbleAttempts
      && (attempts == 0 <==> timer.None?)
      && (forall id :: id in pending ==> id < nextTimerId)
      && (timer.Some? ==> timer.value < nextTimerId)
      && IsTrimmed(lastSelectionText)
    }

    /** Holds between calls: the timer handle names a scheduled retry. */
    ghost predicate Valid()
      reads this
    {
      Consistent() && (timer.Some? ==> timer.value in pending)
    }

    constructor ()
      ensures Valid()
      ensures !hasButton && timer.None? && attempts == 0 && lastSelectionText == "" && pending == {}
    {
      hasButton := false;
      timer := None;
      attempts := 0;
      lastSelectionText := "";
      pending := {};
      nextTimerId := 1;
    }

    /** removeFloatingButton: drop the button, cancel the retry the handle
        names, reset the counter. */
    method RemoveFloatingButton()
      requires Consistent()
      modifies this
      ensures Valid()
      ensures !hasButton && timer.None? && attempts == 0
      ensures pending == Cancel(old(pending), old(timer))
      ensures lastSelectionText == old(lastSelectionText) && nextTimerId == old(nextTimerId)
    {
      hasButton := false;
      if timer.Some? {
        pending := pending - {timer.value};
        timer := None;
      }
      attempts := 0;
    }

    /** tryInsertBubbleButton: on a found container the button is created
        (or reused) and the counter reset; otherwise the counter advances
        and a retry is scheduled, until the limit resets it. A retry still
        scheduled from an earlier call is neither cancelled nor reused. */
    method TryInsertBubbleButton(containerFound: bool)
      requires Consistent()
      modifies this
      ensures Valid()
      ensures lastSelectionText == old(lastSelectionText)
      ensures containerFound ==>
                hasButton && attempts == 0 && timer.None? && pending == old(pending)
      ensures !containerFound ==>
                hasButton == old(hasButton) && attempts == FailedAttempt(old(attempts)).0
      ensures !containerFound && FailedAttempt(old(attempts)).1 ==>
                1 <= attempts <= MaxBubbleAttempts && timer == Some(old(nextTimerId)) &&
                timer.value !in old(pending) && pending == old(pending) + {timer.value}
      ensures !containerFound && !FailedAttempt(old(attempts)).1 ==>
                attempts == 0 && timer.None? && pending == old(pending)
    {
      if containerFound {
        hasButton := true;
        attempts := 0;
        timer := None;
        return;
      }
      attempts := attempts + 1;
      if attempts <= MaxBubbleAttempts {
        var id := nextTimerId;
        pending := pending + {id};
        nextTimerId := nextTimerId + 1;
        timer := Some(id);
      } else {
        attempts := 0;
        timer := None;
      }
    }

    /** The browser runs the scheduled retry `id`: it leaves the queue and
        tryInsertBubbleButton runs again. */
    method RunScheduledRetry(id: nat, containerFound: bool)
      requires Valid() && id in pending
      modifies this
      ensures Valid()
      ensures lastSelectionText == old(lastSelectionText)
      ensures containerFound ==>
                hasButton && attempts == 0 && timer.None? && pending == old(pending) - {id}
      ensures !containerFound ==>
                hasButton == old(hasButton) && attempts == FailedAttempt(old(attempts)).0
      ensures !containerFound && FailedAttempt(old(attempts)).1 ==>
                timer.Some? && timer.value !in old(pending) &&
                pending == old(pending) - {id} + {timer.value}
      ensures !containerFound && !FailedAttempt(old(attempts)).1 ==>
                timer.None? && pending == old(pending) - {id}
    {
      pending := pending - {id};
      TryInsertBubbleButton(containerFound);
    }

    /** isValidSelection: a selection with a range is valid when its trimmed
        text is at least 3 UTF-16 units long; any non-empty trimmed text is
        remembered, and nothing else changes the remembered text. */
    method IsValidSelection(sel: Selection) returns (valid: bool)
      requires Consistent()
      modifies this`lastSelectionText
      ensures Consistent()
      ensures valid <==> ValidSelection(sel)
      ensures Remembered(sel) ==> lastSelectionText == Trim(sel.text)
      ensures !Remembered(sel) ==> lastSelectionText == old(lastSelectionText)
      ensures valid ==> lastSelectionText == Trim(sel.text) && lastSelectionText != ""
    {
      if !HasRange(sel) {
        return false;
      }
      var text := Trim(sel.text);
      if Utf16Length(text) > 0 {
        lastSelectionText := text;
      }
      valid := Utf16Length(text) >= 3;
    }

    /** handleSelection: with the extension off, or for an invalid
        selection, the button is removed; otherwise an insertion is tried. */
    method HandleSelection(enabled: bool, sel: Selection, containerFound: bool)
      requires Valid()
      modifies this
      ensures Valid()
      ensures !enabled ==> lastSelectionText == old(lastSelectionText)
      ensures enabled && Remembered(sel) ==> lastSelectionText == Trim(sel.text)
      ensures enabled && !Remembered(sel) ==> lastSelectionText == old(lastSelectionText)
      ensures !(enabled && ValidSelection(sel)) ==> !hasButton && timer.None? && attempts == 0
      ensures enabled && ValidSelection(sel) && containerFound ==>
                hasButton && timer.None? && attempts == 0
      ensures !(enabled && ValidSelection(sel)) ==> pending == Cancel(old(pending), old(timer))
      ensures enabled && ValidSelection(sel) && containerFound ==>
                hasButton && timer.None? && attempts == 0 && pending == old(pending)
      ensures enabled && ValidSelection(sel) && !containerFound ==>
                hasButton == old(hasButton) && attempts == FailedAttempt(old(attempts)).0
      ensures enabled && ValidSelection(sel) && !containerFound && FailedAttempt(old(attempts)).1 ==>
                timer == Some(old(nextTimerId)) && timer.value !in old(pending) &&
                pending == old(pending) + {timer.value}
      ensures enabled && ValidSelection(sel) && !containerFound && !FailedAttempt(old(attempts)).1 ==>
                timer.None? && pending == old(pending)
    {
      if !enabled {
        RemoveFloatingButton();
        return;
      }
      ghost var button0, attempts0, timer0, pending0, next0 := hasButton, attempts, timer, pending, nextTimerId;
      var valid := IsValidSelection(sel);
      assert hasButton == button0 && attempts == attempts0 && timer == timer0 &&
             pending == pending0 && nextTimerId == next0;
      ghost var remembered := lastSelectionText;
      if valid {
        TryInsertBubbleButton(containerFound);
      } else {
        RemoveFloatingButton();
      }
      assert lastSelectionText == remembered;
    }

    /** The bubble button's click handler: copy the selection (or the
        remembered one) as a blockquote and remove the button; when there
        is nothing to copy, change nothing. */
    method ClickBubbleButton(sel: Selection) returns (copied: Option<string>)
      requires Valid()
      modifies this
      ensures Valid()
      ensures copied == BubbleClickMarkdown(sel, old(lastSelectionText))
      ensures lastSelectionText == old(lastSelectionText)
      ensures copied.None? ==>
                hasButton == old(hasButton) && timer == old(timer) && attempts == old(attempts) &&
                pending == old(pending)
      ensures copied.Some? ==>
                !hasButton && timer.None? && attempts == 0 && pending == Cancel(old(pending), old(timer))
    {
      copied := BubbleClickMarkdown(sel, lastSelectionText);
      if copied.Some? {
        RemoveFloatingButton();
      }
    }
  }

  /** A chain of failed lookups driven through the controller: the first
      handleSelection-triggered call, then each scheduled retry run by the
      browser, until no retry is left; it makes exactly 13 calls. */
  method FailureChainThroughRetries() returns (calls: nat)
    ensures calls == FailureChainCalls(0) && calls == MaxBubbleAttempts + 1
  {
    var c := new BubbleController();
    c.TryInsertBubbleButton(false);
    calls := 1;
    while c.timer.Some?
      invariant c.Valid()
      invariant 1 <= calls <= MaxBubbleAttempts + 1
      invariant c.timer.Some? ==> calls == c.attempts
      invariant c.timer.None? ==> calls == MaxBubbleAttempts + 1
      decreases MaxBubbleAttempts + 1 - calls
    {
      c.RunScheduledRetry(c.timer.value, false);
      calls := calls + 1;
    }
    FailureChainLength(0);
  }

  /** Two failed insertions in a row (selectionchange and mouseup both call
      handleSelection on the same valid selection `sel`), then an invalid
      selection such as a collapsed one, which removes the button: the first
      retry is still scheduled, since only the latest handle is cleared. */
  method StaleRetryAfterRemoval(sel: Selection, cleared: Selection) returns (stillScheduled: nat)
    requires ValidSelection(sel) && !ValidSelection(cleared)
    ensures stillScheduled == 1
  {
    var c := new BubbleController();
    c.HandleSelection(true, sel, false);
    var first := c.timer.value;
    assert c.attempts == 1 && c.timer == Some(first);
    assert c.pending == {first};
    c.HandleSelection(true, sel, false);
    var second := c.timer.value;
    assert c.timer == Some(second);
    assert second != first;
    assert c.pending == {first} + {second};
    c.HandleSelection(true, cleared, false);
    assert c.pending == {first};
    stillScheduled := |c.pending|;
  }
}
