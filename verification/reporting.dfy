/**
 * Status reporting (`_set_status`): every message goes to the log, and to the
 * status callback unless the session error flag is set. The flag is meant to
 * latch on the first error so that only that error stays on display.
 *
 * The flag has three values: `undefined` before anything is assigned,
 * `false`, and `true`. Forwarding tests it for truthiness, but tripping tests
 * `=== false`, so a flag that was never set to `false` never trips.
 */
module Reporting {

  /** `session_error`: `Unset` is `undefined`, `Clear` is `false`, `Tripped` is `true`. */
  datatype Latch = Unset | Clear | Tripped

  /** A status message and whether it reports an error. */
  datatype Message = Message(text: string, isError: bool)

  /** The flag and the messages the status callback has received, oldest first.
      (The log receives every message; it is not modelled.) */
  datatype Reporter = Reporter(latch: Latch, shown: seq<Message>)

  /** `_set_status`: forward unless the flag is truthy; trip it only when it
      is `false` and the message is an error. */
  function SetStatus(rep: Reporter, m: Message): (r: Reporter)
    ensures rep.latch == Tripped ==> r == rep
    ensures rep.latch != Tripped ==> r.shown == rep.shown + [m]
    ensures r.latch == Tripped <==> rep.latch == Tripped || (rep.latch == Clear && m.isError)
    ensures r.latch == Unset <==> rep.latch == Unset
  {
    var shown := if rep.latch != Tripped then rep.shown + [m] else rep.shown;
    var latch := if rep.latch == Clear && m.isError then Tripped else rep.latch;
    Reporter(latch, shown)
  }

  /** Reporting a run of messages in order. */
  function Report(rep: Reporter, ms: seq<Message>): Reporter
    decreases |ms|
  {
    if |ms| == 0 then rep else Report(SetStatus(rep, ms[0]), ms[1..])
  }

  /** The reporter the program starts with: the flag is declared and never
      initialised, so it is `undefined`. */
  const FreshAsWritten := Reporter(Unset, [])

  /** The reporter that latches on the first error: the flag starts `false`,
      so that the first error trips it and later messages are held back. */
  const Fresh := Reporter(Clear, [])

  /** As written, the flag never trips: every message, errors included, reaches
      the status callback. */
  lemma {:induction false} LatchNeverArms(shown: seq<Message>, ms: seq<Message>)
    ensures Report(Reporter(Unset, shown), ms) == Reporter(Unset, shown + ms)
    decreases |ms|
  {
    if |ms| > 0 {
      LatchNeverArms(shown + [ms[0]], ms[1..]);
      assert shown + [ms[0]] + ms[1..] == shown + ms;
    }
  }

  /** A concrete run: after the error "Extension Repository not found", the
      next message still reaches the status callback. */
  lemma ErrorNotLatched()
    ensures var ms := [Message("Extension Repository not found", true), Message("Started: my-player", false)];
            Report(FreshAsWritten, ms).shown == ms
  {
    var ms := [Message("Extension Repository not found", true), Message("Started: my-player", false)];
    LatchNeverArms([], ms);
  }

  /** The position of the first error message, or the number of messages. */
  function FirstError(ms: seq<Message>): (k: nat)
    ensures k <= |ms|
    ensures k < |ms| ==> ms[k].isError
    ensures forall i :: 0 <= i < k ==> !ms[i].isError
  {
    if |ms| == 0 then 0
    else if ms[0].isError then 0
    else 1 + FirstError(ms[1..])
  }

  /** Once tripped, nothing more reaches the status callback. */
  lemma {:induction false} TrippedStays(shown: seq<Message>, ms: seq<Message>)
    ensures Report(Reporter(Tripped, shown), ms) == Reporter(Tripped, shown)
    decreases |ms|
  {
    if |ms| > 0 {
      TrippedStays(shown, ms[1..]);
    }
  }

  /** Moving the first message from the run to what was shown. */
  lemma ShownStep(shown: seq<Message>, ms: seq<Message>, k: nat)
    requires k < |ms|
    ensures shown + [ms[0]] + (if k < |ms| - 1 then ms[1..][..k + 1] else ms[1..])
         == shown + (if k + 1 < |ms| then ms[..k + 2] else ms)
  {
    if k < |ms| - 1 {
      assert [ms[0]] + ms[1..][..k + 1] == ms[..k + 2];
    } else {
      assert [ms[0]] + ms[1..] == ms;
    }
  }

  /** With the flag starting `false`, the status callback receives every
      message up to and including the first error and nothing after it, and
      the flag ends tripped exactly when there was an error. */
  lemma {:induction false} FirstErrorWins(shown: seq<Message>, ms: seq<Message>)
    ensures var r := Report(Reporter(Clear, shown), ms);
            var k := FirstError(ms);
            && r.shown == shown + (if k < |ms| then ms[..k + 1] else ms)
            && (r.latch == Tripped <==> k < |ms|)
    decreases |ms|
  {
    if |ms| > 0 {
      var next := shown + [ms[0]];
      if ms[0].isError {
        assert Report(Reporter(Clear, shown), ms) == Report(Reporter(Tripped, next), ms[1..]);
        TrippedStays(next, ms[1..]);
        assert ms[..1] == [ms[0]];
      } else {
        assert Report(Reporter(Clear, shown), ms) == Report(Reporter(Clear, next), ms[1..]);
        FirstErrorWins(next, ms[1..]);
        var k := FirstError(ms[1..]);
        assert FirstError(ms) == k + 1;
        ShownStep(shown, ms, k);
      }
    }
  }
}
