/** The high-water-mark discipline of `monitor_inbox`, as functions of the oracle
    answers: the startup mark, the drain of one search result, one wait-and-drain
    cycle and a run of cycles. The `InboxMonitor` class in module `Monitor` is proved
    to follow these definitions; the properties of the loop are proved here. */
module Watermark {
  import opened Outcomes
  import opened Pipeline

  /** How `idle()`, `idle_check(timeout=300)` and `idle_done()` ended: with an
      exception, or with or without untagged responses from the server. */
  datatype WaitOutcome = WaitRaised(exc: Exc) | Waited(notified: bool)

  /** What the environment does during one turn of the `while True` loop: how the
      wait ends, what `search(['UID', 'q:*'])` answers for each lower bound `q`, and
      what the services answer while each UID is processed. */
  datatype CycleInput = CycleInput(
    wait: WaitOutcome,
    search: nat -> Result<seq<nat>>,
    respond: nat -> Responses)

  /** One call of `process_email`: the UID it was given and how it ended. */
  datatype Attempt = Attempt(uid: nat, outcome: Processed)

  predicate Completed(a: Attempt) {
    a.outcome.raised.None?
  }

  /** `last_seen_uid` and the log of every `process_email` call so far. */
  datatype MonitorState = MonitorState(mark: nat, log: seq<Attempt>)

  datatype CycleResult = CycleResult(state: MonitorState, interrupted: bool)

  /** How the drain loop treats a UID the search returns: `TrustSearch` processes it,
      as the program does; `SkipSeen` first skips a UID not above the mark. */
  datatype Guard = TrustSearch | SkipSeen

  datatype DrainResult = DrainResult(mark: nat, attempts: seq<Attempt>, raised: Option<Exc>)

  /** `max(uids) if uids else 0`. */
  function HighestUid(uids: seq<nat>): (m: nat)
    ensures uids == [] ==> m == 0
    ensures uids != [] ==> m in uids
    ensures forall k :: 0 <= k < |uids| ==> uids[k] <= m
  {
    if uids == [] then 0
    else
      var rest := HighestUid(uids[1..]);
      assert uids[1..] != [] ==> rest in uids;
      Max(uids[0], rest)
  }

  /** The state right after the startup search `search(['ALL'])` returned `allUids`. */
  function Initial(allUids: seq<nat>): MonitorState {
    MonitorState(HighestUid(allUids), [])
  }

  /** How each UID's call of `process_email` ends, given the services' answers for it. */
  function Processing(respond: nat -> Responses): nat -> Processed {
    (u: nat) => ProcessEmail(respond(u))
  }

  /** The inner `for uid in new_uids` loop: each UID goes to `process_email` and, once
      that returns, the mark becomes `max(mark, uid)`. An exception escaping from
      `process_email` ends the drain with the mark as it was. */
  function Drain(mark: nat, uids: seq<nat>, process: nat -> Processed, g: Guard): (d: DrainResult)
    decreases |uids|
    ensures d.mark >= mark
  {
    if uids == [] then DrainResult(mark, [], None)
    else if g == SkipSeen && uids[0] <= mark then Drain(mark, uids[1..], process, g)
    else
      var p := process(uids[0]);
      if p.raised.Some? then DrainResult(mark, [Attempt(uids[0], p)], p.raised)
      else
        var rest := Drain(Max(mark, uids[0]), uids[1..], process, g);
        DrainResult(rest.mark, [Attempt(uids[0], p)] + rest.attempts, rest.raised)
  }

  /** `attempts` are calls of `process_email` on the first UIDs of `uids`, in order. */
  predicate InOrder(attempts: seq<Attempt>, uids: seq<nat>, process: nat -> Processed) {
    |attempts| <= |uids| &&
    forall k :: 0 <= k < |attempts| ==> attempts[k] == Attempt(uids[k], process(uids[k]))
  }

  /** No UID that completed in `d` is above the mark `d` ends with. */
  predicate MarkCovers(d: DrainResult) {
    forall k :: 0 <= k < |d.attempts| && Completed(d.attempts[k]) ==> d.attempts[k].uid <= d.mark
  }

  /** No UID that completed in a drain is above the mark it ends with. */
  lemma {:induction false} DrainSettles(mark: nat, uids: seq<nat>, process: nat -> Processed, g: Guard)
    ensures MarkCovers(Drain(mark, uids, process, g))
    decreases |uids|
  {
    if uids != [] {
      if g == SkipSeen && uids[0] <= mark {
        DrainSettles(mark, uids[1..], process, g);
        assert Drain(mark, uids, process, g) == Drain(mark, uids[1..], process, g);
      } else if process(uids[0]).raised.None? {
        var m' := Max(mark, uids[0]);
        DrainSettles(m', uids[1..], process, g);
        var rest := Drain(m', uids[1..], process, g);
        var d := Drain(mark, uids, process, g);
        assert d == DrainResult(rest.mark, [Attempt(uids[0], process(uids[0]))] + rest.attempts, rest.raised);
        assert MarkCovers(rest);
        forall k | 0 <= k < |d.attempts| && Completed(d.attempts[k]) ensures d.attempts[k].uid <= d.mark {
          if k > 0 {
            assert d.attempts[k] == rest.attempts[k - 1];
          }
        }
      }
    }
  }

  /** The drain seen from the middle: `done` holds the attempts made on the first `i`
      UIDs and `mark` the mark after them. One more step skips the UID (with the guard,
      when it is not above the mark), raises, which ends the drain, or leaves the same
      picture one UID further on. */
  lemma DrainLoopStep(whole: DrainResult, done: seq<Attempt>, mark: nat, uids: seq<nat>, i: nat, process: nat -> Processed, g: Guard)
    requires i < |uids|
    requires var rest := Drain(mark, uids[i..], process, g);
      whole == DrainResult(rest.mark, done + rest.attempts, rest.raised)
    ensures g == SkipSeen && uids[i] <= mark ==>
      var rest := Drain(mark, uids[i + 1..], process, g);
      whole == DrainResult(rest.mark, done + rest.attempts, rest.raised)
    ensures !(g == SkipSeen && uids[i] <= mark) ==>
      var a := Attempt(uids[i], process(uids[i]));
      if a.outcome.raised.Some? then whole == DrainResult(mark, done + [a], a.outcome.raised)
      else
        var rest := Drain(Max(mark, uids[i]), uids[i + 1..], process, g);
        whole == DrainResult(rest.mark, (done + [a]) + rest.attempts, rest.raised)
  {
    assert uids[i..][0] == uids[i] && uids[i..][1..] == uids[i + 1..];
    var a := Attempt(uids[i], process(uids[i]));
    if !(g == SkipSeen && uids[i] <= mark) && a.outcome.raised.None? {
      var rest := Drain(Max(mark, uids[i]), uids[i + 1..], process, g);
      assert done + ([a] + rest.attempts) == (done + [a]) + rest.attempts;
    }
  }

  /** The program's drain processes the UIDs in the order the search returned them,
      each once, until one raises. */
  lemma {:induction false} DrainInOrder(mark: nat, uids: seq<nat>, process: nat -> Processed)
    ensures InOrder(Drain(mark, uids, process, TrustSearch).attempts, uids, process)
    decreases |uids|
  {
    if uids != [] {
      var p := process(uids[0]);
      var d := Drain(mark, uids, process, TrustSearch);
      if p.raised.None? {
        var m' := Max(mark, uids[0]);
        DrainInOrder(m', uids[1..], process);
        var rest := Drain(m', uids[1..], process, TrustSearch);
        assert d.attempts == [Attempt(uids[0], p)] + rest.attempts;
        forall k | 1 <= k < |d.attempts|
          ensures d.attempts[k] == Attempt(uids[k], process(uids[k]))
        {
          assert d.attempts[k] == rest.attempts[k - 1] && uids[1..][k - 1] == uids[k];
        }
      } else {
        assert d.attempts == [Attempt(uids[0], p)];
      }
    }
  }

  /** In the program's drain every call before the last returned normally, the drain
      raised nothing exactly when it processed every UID and the last call returned
      normally, and an exception it raises is the one its last call raised. */
  lemma {:induction false} DrainStopsAtFirstRaise(mark: nat, uids: seq<nat>, process: nat -> Processed)
    ensures var d := Drain(mark, uids, process, TrustSearch);
      var n := |d.attempts|;
      && (forall k :: 0 <= k < n - 1 ==> Completed(d.attempts[k]))
      && (d.raised.None? <==> n == |uids| && (n == 0 || Completed(d.attempts[n - 1])))
      && (d.raised.Some? ==> n >= 1 && d.attempts[n - 1].outcome.raised == d.raised)
    decreases |uids|
  {
    if uids != [] {
      var p := process(uids[0]);
      var d := Drain(mark, uids, process, TrustSearch);
      if p.raised.None? {
        var m' := Max(mark, uids[0]);
        DrainStopsAtFirstRaise(m', uids[1..], process);
        var rest := Drain(m', uids[1..], process, TrustSearch);
        assert d.attempts == [Attempt(uids[0], p)] + rest.attempts;
        DrainInOrder(m', uids[1..], process);
        forall k | 1 <= k < |d.attempts| - 1 ensures Completed(d.attempts[k]) {
          assert d.attempts[k] == rest.attempts[k - 1];
        }
        if rest.raised.Some? {
          assert d.attempts[|d.attempts| - 1] == rest.attempts[|rest.attempts| - 1];
        }
      } else {
        assert d.attempts == [Attempt(uids[0], p)];
      }
    }
  }

  /** The number of UIDs whose processing completed in a drain of the program. */
  function CompletedCount(d: DrainResult): nat {
    if d.raised.None? then |d.attempts| else if d.attempts == [] then 0 else |d.attempts| - 1
  }

  /** After the program's drain the mark is the highest of the old mark and the UIDs
      that completed; the UID that raised, and those after it, leave it alone. */
  lemma {:induction false} DrainMarkAsWritten(mark: nat, uids: seq<nat>, process: nat -> Processed)
    ensures var d := Drain(mark, uids, process, TrustSearch);
      CompletedCount(d) <= |uids| && d.mark == Max(mark, HighestUid(uids[..CompletedCount(d)]))
    decreases |uids|
  {
    var d := Drain(mark, uids, process, TrustSearch);
    if uids == [] {
      assert uids[..0] == [];
    } else {
      var p := process(uids[0]);
      if p.raised.None? {
        var m' := Max(mark, uids[0]);
        DrainMarkAsWritten(m', uids[1..], process);
        var rest := Drain(m', uids[1..], process, TrustSearch);
        var c := CompletedCount(rest);
        assert CompletedCount(d) == c + 1;
        assert uids[..c + 1] == [uids[0]] + uids[1..][..c];
        assert uids[..c + 1][1..] == uids[1..][..c];
      } else {
        assert uids[..0] == [];
      }
    }
  }

  /** One turn of `while True`. Nothing happens unless the wait ended with responses;
      then the search for UIDs from `mark + 1` on is drained. A keyboard interrupt
      anywhere ends the loop; any other exception only ends the turn. */
  function Cycle(s: MonitorState, c: CycleInput, g: Guard): (r: CycleResult)
    ensures r.state.mark >= s.mark
    ensures |r.state.log| >= |s.log| && r.state.log[..|s.log|] == s.log
    // a wait that times out without responses changes nothing and does not end the loop
    ensures c.wait == Waited(false) ==> r == CycleResult(s, false)
    // a failed wait or search changes nothing
    ensures c.wait.WaitRaised? || (c.wait.notified && c.search(s.mark + 1).Raised?) ==> r.state == s
  {
    match c.wait
    case WaitRaised(e) => CycleResult(s, e == Interrupt)
    case Waited(notified) =>
      if !notified then CycleResult(s, false)
      else
        match c.search(s.mark + 1)
        case Raised(e) => CycleResult(s, e == Interrupt)
        case Ok(uids) =>
          var d := Drain(s.mark, uids, Processing(c.respond), g);
          assert (s.log + d.attempts)[..|s.log|] == s.log;
          CycleResult(MonitorState(d.mark, s.log + d.attempts), d.raised == Some(Interrupt))
  }

  /** The cycles the loop goes through, stopping after the first one that ends with
      a keyboard interrupt. */
  function Run(s: MonitorState, cs: seq<CycleInput>, g: Guard): MonitorState
    decreases |cs|
  {
    if cs == [] then s
    else
      var r := Cycle(s, cs[0], g);
      if r.interrupted then r.state else Run(r.state, cs[1..], g)
  }

  /** The mark never decreases and the log only grows. */
  lemma {:induction false} RunMonotone(s: MonitorState, cs: seq<CycleInput>, g: Guard)
    ensures Run(s, cs, g).mark >= s.mark
    ensures |Run(s, cs, g).log| >= |s.log| && Run(s, cs, g).log[..|s.log|] == s.log
    decreases |cs|
  {
    if cs != [] {
      var r := Cycle(s, cs[0], g);
      if !r.interrupted {
        RunMonotone(r.state, cs[1..], g);
      }
    }
  }

  /** No service answer in the cycle is a keyboard interrupt. */
  ghost predicate Uninterrupted(c: CycleInput) {
    && c.wait != WaitRaised(Interrupt)
    && (forall q :: c.search(q) != Raised(Interrupt))
    && (forall u :: NoInterruptIn(c.respond(u)))
  }

  predicate NoInterruptIn(r: Responses) {
    r.fetched != Raised(Interrupt) && r.classifierReply != Raised(Interrupt)
    && r.generatorReply != Raised(Interrupt) && r.sent != Fail(Interrupt)
  }

  lemma {:induction false} DrainRaisesOnlyWhatProcessingRaises(mark: nat, uids: seq<nat>, process: nat -> Processed, g: Guard)
    requires forall u :: process(u).raised != Some(Interrupt)
    ensures Drain(mark, uids, process, g).raised != Some(Interrupt)
    decreases |uids|
  {
    if uids != [] {
      if g == SkipSeen && uids[0] <= mark {
        DrainRaisesOnlyWhatProcessingRaises(mark, uids[1..], process, g);
      } else if process(uids[0]).raised.None? {
        DrainRaisesOnlyWhatProcessingRaises(Max(mark, uids[0]), uids[1..], process, g);
      }
    }
  }

  /** Every exception other than a keyboard interrupt is survived: a cycle ends the
      loop only when something in it raised a keyboard interrupt. */
  lemma ErrorsDoNotEndTheLoop(s: MonitorState, c: CycleInput, g: Guard)
    requires Uninterrupted(c)
    ensures !Cycle(s, c, g).interrupted
  {
    if c.wait == Waited(true) && c.search(s.mark + 1).Ok? {
      forall u ensures Processing(c.respond)(u).raised != Some(Interrupt) {
        ProcessEmailReturnsIff(c.respond(u));
      }
      DrainRaisesOnlyWhatProcessingRaises(s.mark, c.search(s.mark + 1).value, Processing(c.respond), g);
    }
  }

  /** With no keyboard interrupt in any earlier cycle, the loop goes through every
      cycle: a run of `cs` followed by `c` is the run of `cs`, then the cycle `c`. */
  lemma {:induction false} RunSurvivesErrors(s: MonitorState, cs: seq<CycleInput>, c: CycleInput, g: Guard)
    requires forall k :: 0 <= k < |cs| ==> Uninterrupted(cs[k])
    ensures Run(s, cs + [c], g) == Cycle(Run(s, cs, g), c, g).state
    decreases |cs|
  {
    if cs == [] {
      assert cs + [c] == [c];
    } else {
      assert (cs + [c])[0] == cs[0] && (cs + [c])[1..] == cs[1..] + [c];
      ErrorsDoNotEndTheLoop(s, cs[0], g);
      RunSurvivesErrors(Cycle(s, cs[0], g).state, cs[1..], c, g);
    }
  }

  /** In the program's drain, the first UID whose processing raises ends the drain with
      that exception. */
  lemma {:induction false} DrainRaisesAtFirstRaise(mark: nat, uids: seq<nat>, process: nat -> Processed, j: nat)
    requires j < |uids| && process(uids[j]).raised.Some?
    requires forall k :: 0 <= k < j ==> process(uids[k]).raised.None?
    ensures Drain(mark, uids, process, TrustSearch).raised == process(uids[j]).raised
    decreases j
  {
    if j > 0 {
      assert uids[1..][j - 1] == uids[j];
      forall k | 0 <= k < j - 1 ensures process(uids[1..][k]).raised.None? {
        assert uids[1..][k] == uids[k + 1];
      }
      DrainRaisesAtFirstRaise(Max(mark, uids[0]), uids[1..], process, j - 1);
    }
  }

  /** `except KeyboardInterrupt: break`: a wait or a search interrupted by the user
      ends the loop at once, whatever cycles would have followed. */
  lemma InterruptedWaitEndsLoop(s: MonitorState, c: CycleInput, cs: seq<CycleInput>, g: Guard)
    requires c.wait == WaitRaised(Interrupt) || (c.wait == Waited(true) && c.search(s.mark + 1) == Raised(Interrupt))
    ensures Run(s, [c] + cs, g) == s
  {
    assert ([c] + cs)[0] == c;
  }

  /** `except KeyboardInterrupt: break`: when processing the UID at `j` of the search
      answer is interrupted and every UID before it completed, the cycle reports the
      interrupt and the loop ends with that cycle, whatever cycles would have followed. */
  lemma InterruptedDrainEndsLoop(s: MonitorState, c: CycleInput, cs: seq<CycleInput>, j: nat)
    requires c.wait == Waited(true) && c.search(s.mark + 1).Ok?
    requires var uids := c.search(s.mark + 1).value;
      && j < |uids|
      && ProcessEmail(c.respond(uids[j])).raised == Some(Interrupt)
      && forall k :: 0 <= k < j ==> ProcessEmail(c.respond(uids[k])).raised.None?
    ensures Cycle(s, c, TrustSearch).interrupted
    ensures Run(s, [c] + cs, TrustSearch) == Cycle(s, c, TrustSearch).state
  {
    var uids := c.search(s.mark + 1).value;
    DrainRaisesAtFirstRaise(s.mark, uids, Processing(c.respond), j);
    assert ([c] + cs)[0] == c;
  }

  /** A UID whose processing completed is below every UID processed after it: such a
      message is never handed to `process_email` again. */
  predicate Ordered(log: seq<Attempt>) {
    forall i, j :: 0 <= i < j < |log| && Completed(log[i]) ==> log[i].uid < log[j].uid
  }

  /** Every completed UID is at most the mark. */
  predicate Settled(s: MonitorState) {
    forall i :: 0 <= i < |s.log| && Completed(s.log[i]) ==> s.log[i].uid <= s.mark
  }

  /** Every processed UID is above `m`. */
  predicate Above(log: seq<Attempt>, m: nat) {
    forall i :: 0 <= i < |log| ==> log[i].uid > m
  }

  /** What the search `UID q:*` is assumed to answer: UIDs from `q` on, strictly
      ascending. */
  predicate AscendingFrom(found: seq<nat>, q: nat) {
    (forall k :: 0 <= k < |found| ==> found[k] >= q) &&
    (forall i, j :: 0 <= i < j < |found| ==> found[i] < found[j])
  }

  /** The search of this cycle keeps to the assumption above, whatever mark it is asked from. */
  ghost predicate HonestSearch(c: CycleInput) {
    forall q :: c.search(q).Ok? ==> AscendingFrom(c.search(q).value, q)
  }

  /** A drain processes only UIDs above the mark it starts from, in an order where a
      completed UID is below everything processed after it: with the guard for any
      search answer, without it when the answer keeps to the assumption. */
  lemma {:induction false} DrainFresh(mark: nat, uids: seq<nat>, process: nat -> Processed, g: Guard)
    requires g == SkipSeen || AscendingFrom(uids, mark + 1)
    ensures Above(Drain(mark, uids, process, g).attempts, mark)
    ensures Ordered(Drain(mark, uids, process, g).attempts)
    decreases |uids|
  {
    var d := Drain(mark, uids, process, g);
    if uids != [] && !(g == SkipSeen && uids[0] <= mark) {
      var p := process(uids[0]);
      if p.raised.None? {
        var m' := Max(mark, uids[0]);
        assert g == TrustSearch ==> AscendingFrom(uids[1..], m' + 1);
        DrainFresh(m', uids[1..], process, g);
        var rest := Drain(m', uids[1..], process, g);
        assert d.attempts == [Attempt(uids[0], p)] + rest.attempts;
        forall i, j | 0 <= i < j < |d.attempts| && Completed(d.attempts[i])
          ensures d.attempts[i].uid < d.attempts[j].uid
        {
          assert d.attempts[j] == rest.attempts[j - 1];
          if i > 0 {
            assert d.attempts[i] == rest.attempts[i - 1];
          }
        }
      }
    } else if uids != [] {
      DrainFresh(mark, uids[1..], process, g);
    }
  }

  lemma OrderedAppend(log: seq<Attempt>, more: seq<Attempt>, mark: nat)
    requires Ordered(log) && Ordered(more) && Above(more, mark)
    requires forall i :: 0 <= i < |log| && Completed(log[i]) ==> log[i].uid <= mark
    ensures Ordered(log + more)
  {
    var all := log + more;
    forall i, j | 0 <= i < j < |all| && Completed(all[i]) ensures all[i].uid < all[j].uid {
      if j >= |log| {
        assert all[j] == more[j - |log|];
        if i >= |log| {
          assert all[i] == more[i - |log|];
        }
      }
    }
  }

  /** The loop keeps two facts: a completed UID is below every UID processed after
      it, and no completed UID is above the mark. This needs the guard, or a search that
      keeps to the assumption. */
  lemma {:induction false} RunKeepsOrder(s: MonitorState, cs: seq<CycleInput>, g: Guard)
    requires g == SkipSeen || forall k :: 0 <= k < |cs| ==> HonestSearch(cs[k])
    requires Ordered(s.log) && Settled(s)
    ensures var e := Run(s, cs, g); Ordered(e.log) && Settled(e)
    decreases |cs|
  {
    if cs != [] {
      var c := cs[0];
      var r := Cycle(s, c, g);
      if c.wait == Waited(true) && c.search(s.mark + 1).Ok? {
        var uids := c.search(s.mark + 1).value;
        assert g == TrustSearch ==> HonestSearch(c);
        DrainFresh(s.mark, uids, Processing(c.respond), g);
        var d := Drain(s.mark, uids, Processing(c.respond), g);
        DrainSettles(s.mark, uids, Processing(c.respond), g);
        assert MarkCovers(d) && d.mark >= s.mark;
        OrderedAppend(s.log, d.attempts, s.mark);
        assert r.state == MonitorState(d.mark, s.log + d.attempts);
        forall i | 0 <= i < |r.state.log| && Completed(r.state.log[i]) ensures r.state.log[i].uid <= r.state.mark {
          if i >= |s.log| {
            assert r.state.log[i] == d.attempts[i - |s.log|];
          } else {
            assert r.state.log[i] == s.log[i];
          }
        }
      }
      if !r.interrupted {
        RunKeepsOrder(r.state, cs[1..], g);
      }
    }
  }

  /** Nothing at or below a mark the loop has reached is processed afterwards. This
      needs the guard, or a search that keeps to the assumption. */
  lemma {:induction false} RunStaysAbove(s: MonitorState, cs: seq<CycleInput>, g: Guard, m0: nat)
    requires g == SkipSeen || forall k :: 0 <= k < |cs| ==> HonestSearch(cs[k])
    requires Above(s.log, m0) && s.mark >= m0
    ensures Above(Run(s, cs, g).log, m0)
    decreases |cs|
  {
    if cs != [] {
      var c := cs[0];
      var r := Cycle(s, c, g);
      if c.wait == Waited(true) && c.search(s.mark + 1).Ok? {
        var uids := c.search(s.mark + 1).value;
        assert g == TrustSearch ==> HonestSearch(c);
        DrainFresh(s.mark, uids, Processing(c.respond), g);
        var d := Drain(s.mark, uids, Processing(c.respond), g);
        assert r.state.log == s.log + d.attempts;
        forall i | 0 <= i < |r.state.log| ensures r.state.log[i].uid > m0 {
          if i >= |s.log| {
            assert r.state.log[i] == d.attempts[i - |s.log|];
          }
        }
      }
      if !r.interrupted {
        RunStaysAbove(r.state, cs[1..], g, m0);
      }
    }
  }

  /** From startup on, no message present at startup is processed, and no message
      whose processing completed is processed again. */
  lemma NeverRevisited(allUids: seq<nat>, cs: seq<CycleInput>, g: Guard)
    requires g == SkipSeen || forall k :: 0 <= k < |cs| ==> HonestSearch(cs[k])
    ensures var e := Run(Initial(allUids), cs, g);
      Ordered(e.log) && forall i, k :: 0 <= i < |e.log| && 0 <= k < |allUids| ==> e.log[i].uid != allUids[k]
  {
    var s := Initial(allUids);
    RunKeepsOrder(s, cs, g);
    RunStaysAbove(s, cs, g, s.mark);
  }

  /** The UIDs of `mailbox` between `lo` and `hi`, in mailbox order. */
  function Between(mailbox: seq<nat>, lo: nat, hi: nat): (r: seq<nat>)
    ensures forall x :: x in r <==> x in mailbox && lo <= x <= hi
  {
    if mailbox == [] then []
    else (if lo <= mailbox[0] <= hi then [mailbox[0]] else []) + Between(mailbox[1..], lo, hi)
  }

  /** What a server answers to the search `UID q:*` under section 6.4.8 and the
      sequence-set grammar of section 9 of RFC 3501: `*` stands for the largest UID in
      the mailbox, and a range matches the same UIDs whichever way round it is written. */
  function RangeToStar(mailbox: seq<nat>, q: nat): seq<nat> {
    if mailbox == [] then []
    else
      var top := HighestUid(mailbox);
      if q <= top then Between(mailbox, q, top) else Between(mailbox, top, q)
  }

  /** The answer to `UID q:*` always holds the newest UID, even when `q` is above it. */
  lemma RangeToStarHoldsNewest(mailbox: seq<nat>, q: nat)
    requires mailbox != []
    ensures HighestUid(mailbox) in RangeToStar(mailbox, q)
  {
  }

  /** A mailbox holding messages 1 to 3, and a job offer with every service answering. */
  const sampleMailbox: seq<nat> := [1, 2, 3]

  const sampleOffer := Responses(
    Ok(Message("Offer", [Address("Recruiter", "hr@example.com")], Some(Decoded("We would like to hire you")), None)),
    Ok("YES"), Ok("Thank you"), Pass)

  /** A wait that reports a change that brought no new message. */
  const sampleCycle := CycleInput(Waited(true), (q: nat) => Ok(RangeToStar(sampleMailbox, q)), (u: nat) => sampleOffer)

  lemma SampleOfferAnswered()
    ensures Completed(Attempt(3, ProcessEmail(sampleOffer)))
    ensures |SendsIn(ProcessEmail(sampleOffer).effects)| == 1
  {
    var m := sampleOffer.fetched.value;
    assert SelectBody(m) == Readable("We would like to hire you");
    Verdict.JobOfferIff("YES");
    assert Verdict.YesAt("YES", 0) by {
      assert "YES"[..0] == [] && "YES"[0..3] == "YES" && "YES"[3..] == [];
    }
    assert ReadyToSend(sampleOffer);
    SendOnlyOnPositiveVerdict(sampleOffer);
  }

  lemma SampleSearchAnswersNewest(q: nat)
    requires q > 3
    ensures RangeToStar(sampleMailbox, q) == [3]
  {
    assert HighestUid(sampleMailbox) == 3;
    var tail: seq<nat> := [3];
    assert sampleMailbox[1..] == [2, 3] && [2, 3][1..] == tail && tail[1..] == [];
    assert Between(tail, 3, q) == [3] + Between([], 3, q);
    assert Between([2, 3], 3, q) == [] + Between(tail, 3, q);
  }

  /** One notification without new mail, with the program's drain: the newest message
      is processed again and the mark stays. */
  lemma SampleCycleOnce(log: seq<Attempt>)
    ensures Cycle(MonitorState(3, log), sampleCycle, TrustSearch)
      == CycleResult(MonitorState(3, log + [Attempt(3, ProcessEmail(sampleOffer))]), false)
  {
    var c := sampleCycle;
    var p := ProcessEmail(sampleOffer);
    SampleOfferAnswered();
    SampleSearchAnswersNewest(4);
    assert c.search(4) == Ok([3]);
    assert Processing(c.respond)(3) == p;
    assert [3][1..] == [];
    assert Drain(3, [3], Processing(c.respond), TrustSearch) == DrainResult(3, [Attempt(3, p)], None);
  }

  /** The same notification with the guard: nothing is processed. */
  lemma SampleCycleGuarded(log: seq<Attempt>)
    ensures Cycle(MonitorState(3, log), sampleCycle, SkipSeen) == CycleResult(MonitorState(3, log), false)
  {
    var c := sampleCycle;
    SampleSearchAnswersNewest(4);
    assert c.search(4) == Ok([3]);
    assert [3][1..] == [];
    assert Drain(3, [3], Processing(c.respond), SkipSeen) == DrainResult(3, [], None);
  }

  /** The program trusts that answer: a notification that brings no new mail (a flag
      change, say) makes it process the newest message, although that message was
      already in the mailbox at startup, and again on the next such notification, so a
      job offer among them is answered twice. */
  lemma NewestMessageAnsweredAgain()
    ensures var p := ProcessEmail(sampleOffer);
      var log := Run(Initial(sampleMailbox), [sampleCycle, sampleCycle], TrustSearch).log;
      && log == [Attempt(3, p), Attempt(3, p)]
      && Completed(Attempt(3, p)) && |SendsIn(p.effects)| == 1
      && !Ordered(log)
  {
    var c := sampleCycle;
    var p := ProcessEmail(sampleOffer);
    SampleOfferAnswered();
    var a := Attempt(3, p);
    var s0 := MonitorState(3, []);
    assert Initial(sampleMailbox) == s0;
    SampleCycleOnce([]);
    SampleCycleOnce([a]);
    var s1 := MonitorState(3, [a]);
    var s2 := MonitorState(3, [a, a]);
    assert [] + [a] == [a] && [a] + [a] == [a, a];
    assert Run(s1, [c], TrustSearch) == Run(s2, [], TrustSearch) == s2;
    assert [c, c][1..] == [c];
    assert Run(s0, [c, c], TrustSearch) == Run(s1, [c], TrustSearch);
    assert !([a, a][0].uid < [a, a][1].uid);
  }

  /** With the guard the same notifications process nothing. */
  lemma GuardIgnoresNewestMessage()
    ensures Run(Initial(sampleMailbox), [sampleCycle, sampleCycle], SkipSeen).log == []
  {
    var c := sampleCycle;
    var s0 := MonitorState(3, []);
    assert Initial(sampleMailbox) == s0;
    SampleCycleGuarded([]);
    assert Run(s0, [c], SkipSeen) == Run(s0, [], SkipSeen) == s0;
    assert [c, c][1..] == [c];
    assert Run(s0, [c, c], SkipSeen) == Run(s0, [c], SkipSeen);
  }
}
