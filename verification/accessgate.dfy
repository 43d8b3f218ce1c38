/** The PIN dialog that guards the organizer panel. The user edits the PIN
    field, submits it (button or Enter key) or cancels; the dialog cannot be
    dismissed any other way. A correct PIN closes the dialog and fires the
    success callback; a wrong one clears the field, shows an error, fires the
    failure callback when one was supplied, and leaves the dialog open. */
module AccessGate {
  import opened Text

  const AdminPin: string := "1"
  const WrongPinMessage: string := "Неверный PIN-код"

  /** The dialog: still asking (with the field's text and the error line), or
      dismissed after a correct PIN, or dismissed by cancelling. */
  datatype Dialog = Prompting(input: string, errorText: string) | Granted | Closed

  /** What the user can do while the dialog is shown. */
  datatype Event = Edit(text: string) | Submit | Cancel

  datatype Callback = SuccessCallback | FailureCallback

  /** The dialog after an event, and the callbacks fired on the way. */
  datatype Outcome = Outcome(dialog: Dialog, fired: seq<Callback>)

  /** How the dialog was set up: the PIN it expects, and whether the caller
      supplied the optional failure callback. */
  datatype Gate = Gate(pin: string, hasFailureCallback: bool)

  /** The organizer panel's dialog. */
  function AdminGate(hasFailureCallback: bool): Gate {
    Gate(AdminPin, hasFailureCallback)
  }

  /** The dialog as it opens: an empty field and no error. */
  const Opened: Dialog := Prompting("", "")

  /** One event. */
  function Step(d: Dialog, e: Event, g: Gate): (r: Outcome)
    ensures !d.Prompting? ==> r == Outcome(d, [])
    ensures |r.fired| <= 1
  {
    match d
    case Prompting(input, _) =>
      (match e
       case Edit(text) => Outcome(Prompting(text, d.errorText), [])
       case Submit =>
         if Strip(input) == g.pin then Outcome(Granted, [SuccessCallback])
         else Outcome(Prompting("", WrongPinMessage), if g.hasFailureCallback then [FailureCallback] else [])
       case Cancel => Outcome(Closed, []))
    case _ => Outcome(d, [])
  }

  /** Which callback an event fires and how the dialog can be dismissed: the
      success callback exactly on the move to granted, the failure callback
      only on a submit and only when supplied, granted only by submitting the
      PIN, closed only by cancelling. */
  lemma {:induction false} StepCallbacks(d: Dialog, e: Event, g: Gate)
    ensures var r := Step(d, e, g);
      && ((SuccessCallback in r.fired) <==> d.Prompting? && r.dialog == Granted)
      && (FailureCallback in r.fired ==> g.hasFailureCallback && e == Submit)
      && (r.dialog == Granted ==> d == Granted || (e == Submit && Strip(d.input) == g.pin))
      && (r.dialog == Closed ==> d == Closed || e == Cancel)
  {
  }

  /** A sequence of events, callbacks collected in firing order. */
  function Run(d: Dialog, events: seq<Event>, g: Gate): Outcome
    decreases |events|
  {
    if events == [] then Outcome(d, [])
    else
      var first := Step(d, events[0], g);
      var rest := Run(first.dialog, events[1..], g);
      Outcome(rest.dialog, first.fired + rest.fired)
  }

  /** Typing `text` into the field and submitting it. */
  function Attempts(texts: seq<string>): (events: seq<Event>)
    ensures |events| == 2 * |texts|
  {
    if texts == [] then [] else [Edit(texts[0]), Submit] + Attempts(texts[1..])
  }

  function Repeat(c: Callback, n: nat): (r: seq<Callback>)
    ensures |r| == n && forall i | 0 <= i < n :: r[i] == c
  {
    if n == 0 then [] else [c] + Repeat(c, n - 1)
  }

  /** The organizer dialog accepts exactly the PIN with any whitespace
      around it. */
  lemma {:induction false} SubmitGrantsIff(input: string, errorText: string, hasFailureCallback: bool)
    ensures Step(Prompting(input, errorText), Submit, AdminGate(hasFailureCallback)).dialog == Granted
      <==> exists a: string, b: string :: AllSpace(a) && AllSpace(b) && input == a + AdminPin + b
  {
    if Strip(input) == AdminPin {
      StripFacts(input);
      var k := |input| - |TrimStart(input)|;
      var a, b := input[..k], input[k + |AdminPin|..];
      assert input == a + AdminPin + b;
    }
    forall a: string, b: string | AllSpace(a) && AllSpace(b) && input == a + AdminPin + b
      ensures Strip(input) == AdminPin
    {
      StripFramed(a, AdminPin, b);
    }
  }

  /** A wrong PIN keeps the dialog open with a cleared field and the error
      shown, and fires the failure callback exactly when one was supplied. */
  lemma {:induction false} WrongPinStaysOpen(input: string, errorText: string, g: Gate)
    requires Strip(input) != g.pin
    ensures var r := Step(Prompting(input, errorText), Submit, g);
      && r.dialog == Prompting("", WrongPinMessage)
      && r.fired == (if g.hasFailureCallback then [FailureCallback] else [])
  {
  }

  lemma {:induction false} RunAppend(d: Dialog, a: seq<Event>, b: seq<Event>, g: Gate)
    ensures var ra := Run(d, a, g);
      var rb := Run(ra.dialog, b, g);
      Run(d, a + b, g) == Outcome(rb.dialog, ra.fired + rb.fired)
    decreases |a|
  {
    if a == [] {
      assert a + b == b;
    } else {
      var first := Step(d, a[0], g);
      assert (a + b)[0] == a[0];
      assert (a + b)[1..] == a[1..] + b;
      RunAppend(first.dialog, a[1..], b, g);
      var ra := Run(first.dialog, a[1..], g);
      var rb := Run(ra.dialog, b, g);
      assert first.fired + (ra.fired + rb.fired) == (first.fired + ra.fired) + rb.fired;
    }
  }

  /** A dismissed dialog ignores every further event and fires nothing. */
  lemma {:induction false} DismissedIsFinal(d: Dialog, events: seq<Event>, g: Gate)
    requires !d.Prompting?
    ensures Run(d, events, g) == Outcome(d, [])
    decreases |events|
  {
    if events != [] {
      DismissedIsFinal(d, events[1..], g);
    }
  }

  /** Cancelling closes the dialog; nothing fires, then or later. */
  lemma {:induction false} CancelFiresNothing(d: Dialog, events: seq<Event>, g: Gate)
    requires d.Prompting?
    ensures Run(d, [Cancel] + events, g) == Outcome(Closed, [])
  {
    assert ([Cancel] + events)[1..] == events;
    DismissedIsFinal(Closed, events, g);
  }

  /** Over any run from an open dialog, the success callback fires at most
      once, and exactly when the dialog ends granted; nothing fires after it. */
  lemma {:induction false} SuccessOnceIffGranted(d: Dialog, events: seq<Event>, g: Gate)
    requires d.Prompting?
    ensures SucceedsOnce(Run(d, events, g))
    decreases |events|
  {
    if events != [] {
      var first := Step(d, events[0], g);
      StepSuccessCount(d, events[0], g);
      if first.dialog.Prompting? {
        SuccessOnceIffGranted(first.dialog, events[1..], g);
        QuietPrefix(first.fired, Run(first.dialog, events[1..], g));
      } else {
        DismissedIsFinal(first.dialog, events[1..], g);
        assert first.fired + [] == first.fired;
      }
    }
  }

  /** The success callback fired once if the dialog ended granted, else never,
      and nothing fired after it. */
  predicate SucceedsOnce(r: Outcome) {
    && multiset(r.fired)[SuccessCallback] == (if r.dialog == Granted then 1 else 0)
    && (r.dialog == Granted ==> r.fired != [] && r.fired[|r.fired| - 1] == SuccessCallback)
  }

  /** Callbacks other than success fired before a run keep its success count
      and its last callback. */
  lemma {:induction false} QuietPrefix(before: seq<Callback>, rest: Outcome)
    requires SuccessCallback !in before
    requires SucceedsOnce(rest)
    ensures SucceedsOnce(Outcome(rest.dialog, before + rest.fired))
  {
    var fired := before + rest.fired;
    assert multiset(fired) == multiset(before) + multiset(rest.fired);
    if rest.dialog == Granted {
      assert fired[|fired| - 1] == rest.fired[|rest.fired| - 1];
    }
  }

  /** From an open dialog, one event fires the success callback exactly when
      it grants access, and then fires nothing else. */
  lemma {:induction false} StepSuccessCount(d: Dialog, e: Event, g: Gate)
    requires d.Prompting?
    ensures var r := Step(d, e, g);
      && multiset(r.fired)[SuccessCallback] == (if r.dialog == Granted then 1 else 0)
      && (r.dialog == Granted ==> r.fired == [SuccessCallback])
  {
    var r := Step(d, e, g);
    if r.dialog != Granted {
      assert SuccessCallback !in r.fired;
    }
  }

  /** Without a failure callback nothing but the success callback ever fires. */
  lemma {:induction false} NoFailureCallbackNoFailures(d: Dialog, events: seq<Event>, g: Gate)
    requires !g.hasFailureCallback
    ensures FailureCallback !in Run(d, events, g).fired
    decreases |events|
  {
    if events != [] {
      StepCallbacks(d, events[0], g);
      NoFailureCallbackNoFailures(Step(d, events[0], g).dialog, events[1..], g);
    }
  }

  /** The failure callbacks a number of wrong attempts fire. */
  function Failures(g: Gate, attempts: nat): seq<Callback> {
    Repeat(FailureCallback, if g.hasFailureCallback then attempts else 0)
  }

  /** Wrong attempts can go on without limit: each leaves the dialog open with
      the field cleared and fires one failure callback when one was supplied. */
  lemma {:induction false} WrongAttemptsKeepAsking(d: Dialog, texts: seq<string>, g: Gate)
    requires d.Prompting?
    requires forall i | 0 <= i < |texts| :: Strip(texts[i]) != g.pin
    ensures var r := Run(d, Attempts(texts), g);
      && r.dialog == (if texts == [] then d else Prompting("", WrongPinMessage))
      && r.fired == Failures(g, |texts|)
    decreases |texts|
  {
    if texts != [] {
      var after := Prompting("", WrongPinMessage);
      OneWrongAttempt(d, texts[0], g);
      RunAppend(d, [Edit(texts[0]), Submit], Attempts(texts[1..]), g);
      WrongAttemptsKeepAsking(after, texts[1..], g);
      RepeatAppend(FailureCallback, if g.hasFailureCallback then 1 else 0,
                   if g.hasFailureCallback then |texts| - 1 else 0);
    }
  }

  lemma {:induction false} OneWrongAttempt(d: Dialog, text: string, g: Gate)
    requires d.Prompting? && Strip(text) != g.pin
    ensures Run(d, [Edit(text), Submit], g) == Outcome(Prompting("", WrongPinMessage), Failures(g, 1))
  {
    assert [Edit(text), Submit][1..] == [Submit];
    assert Run(Prompting(text, d.errorText), [Submit], g)
      == Outcome(Prompting("", WrongPinMessage), Failures(g, 1));
  }

  lemma {:induction false} OneRightAttempt(d: Dialog, text: string, g: Gate)
    requires d.Prompting? && Strip(text) == g.pin
    ensures Run(d, [Edit(text), Submit], g) == Outcome(Granted, [SuccessCallback])
  {
    assert [Edit(text), Submit][1..] == [Submit];
    assert [Submit][1..] == [];
    assert Run(Prompting(text, d.errorText), [Submit], g) == Outcome(Granted, [SuccessCallback] + []);
  }

  lemma {:induction false} RepeatAppend(c: Callback, m: nat, n: nat)
    ensures Repeat(c, m) + Repeat(c, n) == Repeat(c, m + n)
    decreases m
  {
    if m > 0 {
      RepeatAppend(c, m - 1, n);
      assert [c] + Repeat(c, m - 1) + Repeat(c, n) == [c] + (Repeat(c, m - 1) + Repeat(c, n));
    }
  }

  /** After any number of wrong attempts the right PIN still opens the panel:
      the failure callbacks fire first, then the success callback, once. */
  lemma {:induction false} GrantedAfterRetries(wrong: seq<string>, pin: string, g: Gate)
    requires forall i | 0 <= i < |wrong| :: Strip(wrong[i]) != g.pin
    requires Strip(pin) == g.pin
    ensures Run(Opened, Attempts(wrong + [pin]), g)
      == Outcome(Granted, Failures(g, |wrong|) + [SuccessCallback])
  {
    AttemptsAppend(wrong, [pin]);
    RunAppend(Opened, Attempts(wrong), Attempts([pin]), g);
    WrongAttemptsKeepAsking(Opened, wrong, g);
    assert Attempts([pin]) == [Edit(pin), Submit];
    OneRightAttempt(Run(Opened, Attempts(wrong), g).dialog, pin, g);
  }

  lemma {:induction false} AttemptsAppend(a: seq<string>, b: seq<string>)
    ensures Attempts(a + b) == Attempts(a) + Attempts(b)
    decreases |a|
  {
    if a == [] {
      assert a + b == b;
    } else {
      assert (a + b)[0] == a[0];
      assert (a + b)[1..] == a[1..] + b;
      AttemptsAppend(a[1..], b);
    }
  }
}
