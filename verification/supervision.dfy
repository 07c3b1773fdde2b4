/**
 * Supervision of the connection to the Roon core: a ping interval that
 * refreshes the status message while a core is connected, and a watchdog
 * timeout armed while it is lost. Timers are modelled by their handles: the
 * host hands out a fresh handle per timer and keeps the set of timers that
 * are still scheduled.
 */
module Supervision {
  import opened Wrappers
  import opened Reporting

  /** The ping period, in milliseconds. */
  const PingPeriod := 60000

  /** The watchdog delay, in milliseconds. */
  const WatchdogDelay := 30000

  /** A scheduled timer: a repeating interval or a one-shot timeout. */
  datatype Timer = Interval(ms: nat) | Timeout(ms: nat)

  /** The handles held in `ping_timer_id` and `watchdog_timer_id` (null is
      `None`), the timers the host still has scheduled, and the next handle. */
  datatype Timers = Timers(ping: Option<nat>, watchdog: Option<nat>, scheduled: map<nat, Timer>, nextHandle: nat)

  const NoTimers := Timers(None, None, map[], 1)

  /** The ping interval is scheduled under the handle the program holds. */
  predicate PingArmed(t: Timers) {
    t.ping.Some? && t.ping.value in t.scheduled
  }

  /** The watchdog timeout is scheduled under the handle the program holds. */
  predicate WatchdogArmed(t: Timers) {
    t.watchdog.Some? && t.watchdog.value in t.scheduled
  }

  /** Handles are issued in order, and every scheduled timer is one the
      program still holds a handle to: no timer is leaked. */
  predicate TimersGood(t: Timers) {
    && (forall h :: h in t.scheduled ==> h < t.nextHandle && (t.ping == Some(h) || t.watchdog == Some(h)))
    && (t.ping.Some? ==> t.ping.value < t.nextHandle)
    && (t.watchdog.Some? ==> t.watchdog.value < t.nextHandle)
    && (t.ping.Some? && t.watchdog.Some? ==> t.ping.value != t.watchdog.value)
    && (t.ping.Some? && t.ping.value in t.scheduled ==> t.scheduled[t.ping.value] == Interval(PingPeriod))
    && (t.watchdog.Some? && t.watchdog.value in t.scheduled ==> t.scheduled[t.watchdog.value] == Timeout(WatchdogDelay))
  }

  /** `setup_ping_timer`: schedules the ping only while no handle is held. */
  function SetupPing(t: Timers): (r: Timers)
    ensures t.ping.Some? ==> r == t
    ensures t.ping.None? ==> r.ping == Some(t.nextHandle) && r.scheduled == t.scheduled[t.nextHandle := Interval(PingPeriod)]
                             && r.watchdog == t.watchdog && r.nextHandle == t.nextHandle + 1
  {
    if t.ping.Some? then t
    else t.(ping := Some(t.nextHandle), scheduled := t.scheduled[t.nextHandle := Interval(PingPeriod)], nextHandle := t.nextHandle + 1)
  }

  /** `clear_ping_timer` as written: cancels the interval but keeps the handle. */
  function ClearPingAsWritten(t: Timers): (r: Timers)
    ensures r.ping == t.ping && r.watchdog == t.watchdog && r.nextHandle == t.nextHandle
    ensures !PingArmed(r)
    ensures forall h :: h in r.scheduled <==> h in t.scheduled && Some(h) != t.ping
  {
    if t.ping.Some? then t.(scheduled := t.scheduled - {t.ping.value}) else t
  }

  /** `clear_ping_timer` corrected: cancels the interval and drops the handle. */
  function ClearPing(t: Timers): (r: Timers)
    ensures r.ping.None? && r.watchdog == t.watchdog && r.nextHandle == t.nextHandle
    ensures forall h :: h in r.scheduled <==> h in t.scheduled && Some(h) != t.ping
  {
    if t.ping.Some? then t.(ping := None, scheduled := t.scheduled - {t.ping.value}) else t
  }

  /** `clear_watchdog_timer`: cancels the timeout; the handle is kept, which
      is harmless because the watchdog is always set afresh. */
  function ClearWatchdog(t: Timers): (r: Timers)
    ensures r.ping == t.ping && r.watchdog == t.watchdog && r.nextHandle == t.nextHandle
    ensures !WatchdogArmed(r)
    ensures forall h :: h in r.scheduled <==> h in t.scheduled && Some(h) != t.watchdog
  {
    if t.watchdog.Some? then t.(scheduled := t.scheduled - {t.watchdog.value}) else t
  }

  /** `setup_watchdog_timer`: cancels any watchdog and schedules a fresh one. */
  function SetupWatchdog(t: Timers): (r: Timers)
    ensures r.watchdog == Some(t.nextHandle) && r.nextHandle == t.nextHandle + 1 && r.ping == t.ping
    ensures WatchdogArmed(r) && r.scheduled[t.nextHandle] == Timeout(WatchdogDelay)
    ensures forall h :: h in r.scheduled <==> h == t.nextHandle || (h in t.scheduled && Some(h) != t.watchdog)
  {
    var cleared := ClearWatchdog(t);
    cleared.(watchdog := Some(t.nextHandle), scheduled := cleared.scheduled[t.nextHandle := Timeout(WatchdogDelay)],
             nextHandle := t.nextHandle + 1)
  }

  /** `core_lost` as written: the ping handle is kept. */
  function CoreLostAsWritten(t: Timers): (r: Timers)
    ensures r.ping == t.ping && WatchdogArmed(r)
    ensures TimersGood(t) ==> !PingArmed(r)
  {
    SetupWatchdog(ClearPingAsWritten(t))
  }

  /** `core_found`: the watchdog is cancelled and the ping scheduled unless a
      ping handle is held. */
  function CoreFound(t: Timers): (r: Timers)
    ensures TimersGood(t) ==> !WatchdogArmed(r)
    ensures t.ping.None? ==> PingArmed(r)
    ensures t.ping.Some? ==> r.ping == t.ping
    ensures TimersGood(t) && t.ping.Some? ==> (PingArmed(r) <==> PingArmed(t))
  {
    SetupPing(ClearWatchdog(t))
  }

  /** `core_lost`, with the corrected `clear_ping_timer`. */
  function CoreLost(t: Timers): (r: Timers)
    ensures !PingArmed(r) && r.ping.None? && WatchdogArmed(r)
  {
    SetupWatchdog(ClearPing(t))
  }

  /** A notification from the Roon API about the core. */
  datatype CoreEvent = Found | Lost

  /** The timers after a run of core events, as written. */
  function RunAsWritten(t: Timers, events: seq<CoreEvent>): Timers
    decreases |events|
  {
    if |events| == 0 then t
    else RunAsWritten(if events[0] == Found then CoreFound(t) else CoreLostAsWritten(t), events[1..])
  }

  /** The timers after a run of core events, corrected. */
  function Run(t: Timers, events: seq<CoreEvent>): Timers
    decreases |events|
  {
    if |events| == 0 then t
    else Run(if events[0] == Found then CoreFound(t) else CoreLost(t), events[1..])
  }

  /** As written, a ping handle whose interval is cancelled is held for good:
      no run of core events schedules the ping again. */
  lemma {:induction false} PingNeverRearmed(t: Timers, events: seq<CoreEvent>)
    requires TimersGood(t) && t.ping.Some? && !PingArmed(t)
    ensures var r := RunAsWritten(t, events);
            r.ping == t.ping && !PingArmed(r)
    decreases |events|
  {
    if |events| > 0 {
      var next := if events[0] == Found then CoreFound(t) else CoreLostAsWritten(t);
      EventsKeepGood(t);
      PingNeverRearmed(next, events[1..]);
    }
  }

  /** As written, once a core with a scheduled ping is lost, the ping is
      never scheduled again, whatever core events follow. */
  lemma PingNotRearmed(t: Timers, events: seq<CoreEvent>)
    requires TimersGood(t) && PingArmed(t)
    ensures !PingArmed(RunAsWritten(t, [Lost] + events))
  {
    EventsKeepGood(t);
    assert ([Lost] + events)[1..] == events;
    PingNeverRearmed(CoreLostAsWritten(t), events);
  }

  /** A concrete run from start-up: the core is found, lost and found again;
      as written no ping is scheduled at the end, corrected one is. */
  lemma PingRunFromStart()
    ensures var t := CoreFound(NoTimers);
            PingArmed(t) && !PingArmed(CoreFound(CoreLostAsWritten(t)))
    ensures var t := CoreFound(NoTimers);
            PingArmed(t) && PingArmed(CoreFound(CoreLost(t)))
  {
  }

  /** Corrected, a held ping handle always has its interval scheduled. */
  predicate PingHeld(t: Timers) {
    t.ping.Some? ==> PingArmed(t)
  }

  /** Corrected, every run of core events keeps the timers well formed and
      the ping handle honest; after a run that ends with the core found the
      ping is scheduled and the watchdog is not, and after one that ends with
      the core lost the watchdog is scheduled and the ping is not. */
  lemma {:induction false} RunKeepsPingHeld(t: Timers, events: seq<CoreEvent>)
    requires TimersGood(t) && PingHeld(t)
    ensures var r := Run(t, events);
            && TimersGood(r) && PingHeld(r)
            && (|events| > 0 && events[|events| - 1] == Found ==> PingArmed(r) && !WatchdogArmed(r))
            && (|events| > 0 && events[|events| - 1] == Lost ==> !PingArmed(r) && WatchdogArmed(r))
    decreases |events|
  {
    if |events| > 0 {
      var next := if events[0] == Found then CoreFound(t) else CoreLost(t);
      EventsKeepGood(t);
      RunKeepsPingHeld(next, events[1..]);
    }
  }

  /** Corrected, from start-up, whenever the last core event is "found" the
      ping is scheduled and the watchdog is not, and whenever it is "lost"
      the watchdog is scheduled and the ping is not. */
  lemma PingRearmed(events: seq<CoreEvent>)
    requires |events| > 0
    ensures var r := Run(NoTimers, events);
            && (events[|events| - 1] == Found ==> PingArmed(r) && !WatchdogArmed(r))
            && (events[|events| - 1] == Lost ==> !PingArmed(r) && WatchdogArmed(r))
  {
    RunKeepsPingHeld(NoTimers, events);
  }

  /** Every core event keeps the timers well formed: no timer is leaked, the
      ping and the watchdog are never the same timer, and at most one
      watchdog and one ping are scheduled. */
  lemma EventsKeepGood(t: Timers)
    requires TimersGood(t)
    ensures TimersGood(CoreFound(t)) && TimersGood(CoreLost(t))
    ensures TimersGood(CoreLostAsWritten(t))
  {
  }

  // ---------------------------------------------------------------------------
  // set_status and ping
  // ---------------------------------------------------------------------------

  /** What the status service shows: `last_message` and `last_is_error`
      (undefined until the first message) and every message sent to the
      service, oldest first. */
  datatype Display = Display(last: Option<Message>, sent: seq<Option<Message>>)

  const NoDisplay := Display(None, [])

  /** `set_status`: sends the message and remembers it. */
  function SetDisplay(d: Display, m: Message): (r: Display)
    ensures r.last == Some(m) && r.sent == d.sent + [Some(m)]
  {
    Display(Some(m), d.sent + [Some(m)])
  }

  /** `ping`: sends the remembered message again (undefined before any). */
  function Ping(d: Display): (r: Display)
    ensures r.last == d.last && r.sent == d.sent + [d.last]
  {
    d.(sent := d.sent + [d.last])
  }

  /** The installer's status messages relayed in order. */
  function Relay(d: Display, ms: seq<Message>): Display
    decreases |ms|
  {
    if |ms| == 0 then d else Relay(SetDisplay(d, ms[0]), ms[1..])
  }

  /** After relaying messages, the status service has been sent them in
      order, and a ping repeats the last one (or, before any message, the
      undefined one). */
  lemma {:induction false} PingRepeatsLast(d: Display, ms: seq<Message>)
    ensures var r := Relay(d, ms);
            && r.sent == d.sent + seq(|ms|, i requires 0 <= i < |ms| => Some(ms[i]))
            && Ping(r).sent[|Ping(r).sent| - 1] == (if |ms| == 0 then d.last else Some(ms[|ms| - 1]))
    decreases |ms|
  {
    if |ms| > 0 {
      var d' := SetDisplay(d, ms[0]);
      PingRepeatsLast(d', ms[1..]);
      var tail := seq(|ms| - 1, i requires 0 <= i < |ms| - 1 => Some(ms[1..][i]));
      assert [Some(ms[0])] + tail == seq(|ms|, i requires 0 <= i < |ms| => Some(ms[i]));
    }
  }
}
