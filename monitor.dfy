/** `monitor_inbox`: the watcher that keeps `last_seen_uid` while the session waits
    for changes and drains the UIDs the server reports. The IMAP session, the
    services and the clock are the oracle answers in each `CycleInput`. */
module Monitor {
  import opened Outcomes
  import opened Pipeline
  import Watermark

  class InboxMonitor {
    /** `last_seen_uid`. */
    var lastSeen: nat
    /** Every call of `process_email` so far, with its outcome. */
    ghost var log: seq<Watermark.Attempt>
    /** `TrustSearch` drains every UID the search reports, as the program does;
        `SkipSeen` passes over those not above `last_seen_uid`. */
    const guard: Watermark.Guard

    ghost function State(): Watermark.MonitorState
      reads this
    {
      Watermark.MonitorState(lastSeen, log)
    }

    /** Starts from the UIDs the startup search `search(['ALL'])` returned. */
    constructor (allUids: seq<nat>, guard: Watermark.Guard)
      ensures State() == Watermark.Initial(allUids) && this.guard == guard
      ensures allUids == [] ==> lastSeen == 0
      ensures forall k :: 0 <= k < |allUids| ==> allUids[k] <= lastSeen
    {
      lastSeen := Watermark.HighestUid(allUids);
      log := [];
      this.guard := guard;
    }

    /** `process_email(uid, client)` followed by `last_seen_uid = max(last_seen_uid, uid)`:
        the mark moves only when the call returns normally. */
    method Visit(uid: nat, respond: nat -> Responses) returns (p: Processed)
      modifies this
      ensures p == Watermark.Processing(respond)(uid)
      ensures log == old(log) + [Watermark.Attempt(uid, p)]
      ensures lastSeen == if p.raised.None? then Max(old(lastSeen), uid) else old(lastSeen)
    {
      p := ProcessEmail(respond(uid));
      log := log + [Watermark.Attempt(uid, p)];
      if p.raised.None? {
        lastSeen := Max(lastSeen, uid);
      }
    }

    /** `for uid in new_uids: ...`, with the exception that escapes from
        `process_email`, if any, returned. */
    method Drain(uids: seq<nat>, respond: nat -> Responses) returns (raised: Option<Exc>)
      modifies this
      ensures var d := Watermark.Drain(old(lastSeen), uids, Watermark.Processing(respond), guard);
        lastSeen == d.mark && log == old(log) + d.attempts && raised == d.raised
    {
      ghost var process := Watermark.Processing(respond);
      ghost var whole := Watermark.Drain(lastSeen, uids, process, guard);
      ghost var done: seq<Watermark.Attempt> := [];
      assert uids[0..] == uids && done + whole.attempts == whole.attempts;
      var i := 0;
      while i < |uids|
        invariant 0 <= i <= |uids|
        invariant log == old(log) + done
        invariant var rest := Watermark.Drain(lastSeen, uids[i..], process, guard);
          whole == Watermark.DrainResult(rest.mark, done + rest.attempts, rest.raised)
      {
        Watermark.DrainLoopStep(whole, done, lastSeen, uids, i, process, guard);
        if !(guard == Watermark.SkipSeen && uids[i] <= lastSeen) {
          var p := Visit(uids[i], respond);
          done := done + [Watermark.Attempt(uids[i], p)];
          if p.raised.Some? {
            return p.raised;
          }
        }
        i := i + 1;
      }
      assert uids[i..] == [];
      return None;
    }

    /** One turn of the `while True` loop: wait, and on responses search from
        `last_seen_uid + 1` and drain. Reports whether a keyboard interrupt ended the loop. */
    method Cycle(c: Watermark.CycleInput) returns (interrupted: bool)
      modifies this
      ensures Watermark.CycleResult(State(), interrupted) == Watermark.Cycle(old(State()), c, guard)
    {
      interrupted := false;
      match c.wait
      case WaitRaised(e) =>
        interrupted := e == Interrupt;
      case Waited(notified) =>
        if notified {
          match c.search(lastSeen + 1)
          case Raised(e) =>
            interrupted := e == Interrupt;
          case Ok(uids) =>
            var raised := Drain(uids, c.respond);
            interrupted := raised == Some(Interrupt);
        }
    }

    /** The `while True` loop over the turns the environment provides, left at the
        first keyboard interrupt. The mark never decreases, and with the guard, or with
        a search that only reports UIDs above the mark in ascending order, no completed
        message is processed again. */
    method Run(cycles: seq<Watermark.CycleInput>)
      modifies this
      ensures State() == Watermark.Run(old(State()), cycles, guard)
      ensures lastSeen >= old(lastSeen)
      ensures (guard == Watermark.SkipSeen || forall k :: 0 <= k < |cycles| ==> Watermark.HonestSearch(cycles[k]))
        && Watermark.Ordered(old(log)) && Watermark.Settled(old(State()))
        ==> Watermark.Ordered(log) && Watermark.Settled(State())
    {
      ghost var start := State();
      var i := 0;
      while i < |cycles|
        invariant 0 <= i <= |cycles|
        invariant Watermark.Run(start, cycles, guard) == Watermark.Run(State(), cycles[i..], guard)
      {
        var interrupted := Cycle(cycles[i]);
        assert cycles[i..][1..] == cycles[i + 1..];
        if interrupted {
          break;
        }
        i := i + 1;
      }
      Watermark.RunMonotone(start, cycles, guard);
      if (guard == Watermark.SkipSeen || forall k :: 0 <= k < |cycles| ==> Watermark.HonestSearch(cycles[k]))
        && Watermark.Ordered(start.log) && Watermark.Settled(start)
      {
        Watermark.RunKeepsOrder(start, cycles, guard);
      }
    }
  }

  /** `monitor_inbox` after login: the startup search, then the loop. With the guard,
      no message present at startup is processed and no completed message is
      processed again, whatever the search answers. */
  method MonitorInbox(allUids: seq<nat>, cycles: seq<Watermark.CycleInput>, guard: Watermark.Guard) returns (m: InboxMonitor)
    ensures m.State() == Watermark.Run(Watermark.Initial(allUids), cycles, guard)
    ensures guard == Watermark.SkipSeen ==>
      Watermark.Ordered(m.log) &&
      forall i, k :: 0 <= i < |m.log| && 0 <= k < |allUids| ==> m.log[i].uid != allUids[k]
  {
    m := new InboxMonitor(allUids, guard);
    m.Run(cycles);
    if guard == Watermark.SkipSeen {
      Watermark.NeverRevisited(allUids, cycles, guard);
    }
  }
}
