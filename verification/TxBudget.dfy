/** The shared transmit budget (pktgen/app/pktgen-port-cfg.h, pktgen/app/pktgen.c).

    Several queues of one port, each served by its own core, take bursts out of one packet
    counter with a compare-and-swap loop.  Every access to shared memory is a step of its own
    and the steps of the queues interleave in any order; only the start and stop commands and
    the clearing of the two sending flags are single steps. */
module TxBudget {
  import opened Arith

  /** Where a queue's worker stands between two accesses to shared memory. */
  datatype Pc =
    | Idle               // before reading SENDING_PACKETS
    | Gated              // SENDING_PACKETS was set, before reading SEND_FOREVER
    | Ready              // in the loop, before reading the counter
    | Loaded(seen: int)  // before the compare-and-swap
    | Empty              // read a zero counter, before clearing the flags

  datatype Port = Port(
    cnt: int,            // current_tx_count
    sending: bool,       // SENDING_PACKETS
    forever: bool,       // SEND_FOREVER
    pcs: seq<Pc>,        // one per queue
    grants: seq<int>,    // history: sizes of the bursts granted, in order
    failures: nat        // history: lost compare-and-swaps
  )

  datatype Action =
    | ReadSending(q: nat)
    | ReadForever(q: nat)
    | Load(q: nat)
    | Cas(q: nat, burst: int)
    | Clear(q: nat)
    | Start(total: nat)
    | Stop

  predicate Enabled(p: Port, a: Action) {
    match a
    case ReadSending(q) => q < |p.pcs| && p.pcs[q].Idle?
    case ReadForever(q) => q < |p.pcs| && p.pcs[q].Gated?
    case Load(q) => q < |p.pcs| && p.pcs[q].Ready?
    case Cas(q, burst) => q < |p.pcs| && p.pcs[q].Loaded? && burst > 0
    case Clear(q) => q < |p.pcs| && p.pcs[q].Empty?
    case Start(_) => !p.sending
    case Stop => p.sending
  }

  /** The share of a loaded count that one burst takes. */
  function Share(seen: int, burst: int): int {
    if seen > burst then burst else seen
  }

  function Step(p: Port, a: Action): Port
    requires Enabled(p, a)
  {
    match a
    case ReadSending(q) => p.(pcs := p.pcs[q := if p.sending then Gated else Idle])
    case ReadForever(q) => p.(pcs := p.pcs[q := if p.forever then Idle else Ready])
    case Load(q) => p.(pcs := p.pcs[q := if p.cnt == 0 then Empty else Loaded(p.cnt)])
    case Cas(q, burst) =>
      var seen := p.pcs[q].seen;
      if p.cnt == seen then
        var n := Share(seen, burst);
        p.(cnt := seen - n, grants := p.grants + [n], pcs := p.pcs[q := Idle])
      else
        p.(failures := p.failures + 1, pcs := p.pcs[q := Ready])
    case Clear(q) => p.(sending := false, forever := false, pcs := p.pcs[q := Idle])
    case Start(total) => p.(cnt := total, sending := true, forever := p.forever || total == 0)
    case Stop => p.(sending := false, forever := false)
  }

  ghost predicate IsRun(p: Port, run: seq<Action>)
    decreases |run|
  {
    run == [] || (Enabled(p, run[0]) && IsRun(Step(p, run[0]), run[1..]))
  }

  ghost function Exec(p: Port, run: seq<Action>): Port
    requires IsRun(p, run)
    decreases |run|
  {
    if run == [] then p else Exec(Step(p, run[0]), run[1..])
  }

  /** No start command: everything happens within one transmission. */
  ghost predicate OneTransmission(run: seq<Action>) {
    forall i :: 0 <= i < |run| ==> !run[i].Start?
  }

  ghost predicate BurstsAtMost(run: seq<Action>, b: int) {
    forall i :: 0 <= i < |run| && run[i].Cas? ==> run[i].burst <= b
  }

  /** Every queue asks for bursts of the same size. */
  ghost predicate CommonBurst(run: seq<Action>, b: int) {
    forall i :: 0 <= i < |run| && run[i].Cas? ==> run[i].burst == b
  }

  /** A transmission that has just begun with a count of n; queues may be anywhere. */
  ghost predicate Begins(p: Port, n: nat) {
    p.cnt == n && p.grants == [] && p.failures == 0 && WellLoaded(p)
  }

  ghost predicate WellLoaded(p: Port) {
    forall q :: 0 <= q < |p.pcs| && p.pcs[q].Loaded? ==> p.pcs[q].seen > 0
  }

  // ----- conservation -----

  ghost predicate Conserved(p: Port, n: nat, b: int) {
    WellLoaded(p) && p.cnt >= 0 && Sum(p.grants) + p.cnt == n &&
    forall i :: 0 <= i < |p.grants| ==> 0 < p.grants[i] <= b
  }

  lemma StepConserves(p: Port, a: Action, n: nat, b: int)
    requires Enabled(p, a) && !a.Start? && (a.Cas? ==> a.burst <= b) && Conserved(p, n, b)
    ensures Conserved(Step(p, a), n, b)
  {
    if a.Cas? && p.cnt == p.pcs[a.q].seen {
      var g := Share(p.cnt, a.burst);
      assert (p.grants + [g])[..|p.grants|] == p.grants;
    }
  }

  lemma {:induction false} RunConserves(p: Port, run: seq<Action>, n: nat, b: int)
    requires IsRun(p, run) && OneTransmission(run) && BurstsAtMost(run, b) && Conserved(p, n, b)
    ensures Conserved(Exec(p, run), n, b)
    decreases |run|
  {
    if run != [] {
      StepConserves(p, run[0], n, b);
      RunConserves(Step(p, run[0]), run[1..], n, b);
    }
  }

  /** Under every interleaving, packets granted and packets left add up to the count the
      transmission started with, and no grant is empty or exceeds the largest burst. */
  lemma Conservation(p: Port, run: seq<Action>, n: nat, b: int)
    requires Begins(p, n) && IsRun(p, run) && OneTransmission(run) && BurstsAtMost(run, b)
    ensures var last := Exec(p, run);
      Sum(last.grants) + last.cnt == n && last.cnt >= 0 &&
      forall i :: 0 <= i < |last.grants| ==> 0 < last.grants[i] <= b
  {
    RunConserves(p, run, n, b);
  }

  // ----- exact grants for a common burst size -----

  /** What the k-th grant (from 0) must be: a full burst, or what is left. */
  function Expected(n: nat, b: int, k: nat): int {
    Share(n - k * b, b)
  }

  ghost predicate Metered(p: Port, n: nat, b: int) {
    WellLoaded(p) && p.cnt >= 0 &&
    p.cnt == (if n - |p.grants| * b >= 0 then n - |p.grants| * b else 0) &&
    forall i :: 0 <= i < |p.grants| ==> p.grants[i] == Expected(n, b, i) > 0
  }

  lemma StepMetered(p: Port, a: Action, n: nat, b: int)
    requires Enabled(p, a) && !a.Start? && b > 0 && (a.Cas? ==> a.burst == b) && Metered(p, n, b)
    ensures Metered(Step(p, a), n, b)
  {
    if a.Cas? && p.cnt == p.pcs[a.q].seen {
      var k := |p.grants|;
      assert p.cnt == n - k * b > 0;
      assert (k + 1) * b == k * b + b;
      assert Step(p, a).grants[k] == Expected(n, b, k);
    }
  }

  lemma {:induction false} RunMetered(p: Port, run: seq<Action>, n: nat, b: int)
    requires IsRun(p, run) && OneTransmission(run) && CommonBurst(run, b) && b > 0 && Metered(p, n, b)
    ensures Metered(Exec(p, run), n, b)
    decreases |run|
  {
    if run != [] {
      StepMetered(p, run[0], n, b);
      RunMetered(Step(p, run[0]), run[1..], n, b);
    }
  }

  lemma LastGrant(n: nat, b: int, k: nat)
    requires k > 0 && b > 0 && Expected(n, b, k - 1) > 0
    ensures n > k * b - b
  {
    assert (k - 1) * b == k * b - b;
  }

  /** With one burst size b, whoever takes them, the grants are full bursts followed by at most
      one shorter one, and the counter is used up after exactly ceil(n / b) of them. */
  lemma GrantsAreFullBursts(p: Port, run: seq<Action>, n: nat, b: int)
    requires Begins(p, n) && IsRun(p, run) && OneTransmission(run) && CommonBurst(run, b) && b > 0
    ensures var last := Exec(p, run);
      (forall i :: 0 <= i < |last.grants| ==> last.grants[i] == Expected(n, b, i)) &&
      |last.grants| <= (n + b - 1) / b &&
      (last.cnt == 0 <==> |last.grants| == (n + b - 1) / b)
  {
    hide Exec, IsRun;
    RunMetered(p, run, n, b);
    var last := Exec(p, run);
    if |last.grants| > 0 {
      LastGrant(n, b, |last.grants|);
    }
    CeilDiv(n, b, |last.grants|);
  }

  // ----- lost compare-and-swaps are paid for by others' successes -----

  function Stale(cnt: int, pc: Pc): nat {
    if pc.Loaded? && pc.seen != cnt then 1 else 0
  }

  /** How many queues hold an outdated count. */
  function StaleCount(cnt: int, pcs: seq<Pc>): nat {
    if pcs == [] then 0 else Stale(cnt, pcs[0]) + StaleCount(cnt, pcs[1..])
  }

  lemma {:induction false} StaleCountUpdate(cnt: int, pcs: seq<Pc>, q: nat, pc: Pc)
    requires q < |pcs|
    ensures StaleCount(cnt, pcs[q := pc]) == StaleCount(cnt, pcs) - Stale(cnt, pcs[q]) + Stale(cnt, pc)
  {
    if q > 0 {
      assert pcs[q := pc][1..] == pcs[1..][q - 1 := pc];
      StaleCountUpdate(cnt, pcs[1..], q - 1, pc);
    } else {
      assert pcs[q := pc][1..] == pcs[1..];
    }
  }

  lemma {:induction false} StaleCountBound(cnt: int, pcs: seq<Pc>, q: nat)
    ensures StaleCount(cnt, pcs) <= |pcs|
    ensures q < |pcs| && !pcs[q].Loaded? ==> StaleCount(cnt, pcs) <= |pcs| - 1
  {
    if pcs != [] {
      StaleCountBound(cnt, pcs[1..], if q > 0 then q - 1 else 0);
    }
  }

  /** The price of failure: every success of one queue can spoil the count of each other queue
      at most once. */
  ghost predicate Paid(p: Port, credit: nat) {
    p.failures + StaleCount(p.cnt, p.pcs) <= credit + |p.grants| * (|p.pcs| - 1)
  }

  lemma StepPaid(p: Port, a: Action, credit: nat)
    requires Enabled(p, a) && !a.Start? && Paid(p, credit)
    ensures Paid(Step(p, a), credit) && |Step(p, a).pcs| == |p.pcs|
  {
    if a.Stop? {
      return;
    }
    var p' := Step(p, a);
    StaleCountUpdate(p.cnt, p.pcs, a.q, p'.pcs[a.q]);
    if a.Cas? && p.cnt == p.pcs[a.q].seen {
      StaleCountBound(p'.cnt, p'.pcs, a.q);
      assert |p'.grants| * (|p.pcs| - 1) == |p.grants| * (|p.pcs| - 1) + |p.pcs| - 1;
    }
  }

  lemma {:induction false} RunPaid(p: Port, run: seq<Action>, credit: nat)
    requires IsRun(p, run) && OneTransmission(run) && Paid(p, credit)
    ensures Paid(Exec(p, run), credit) && |Exec(p, run).pcs| == |p.pcs|
    decreases |run|
  {
    if run != [] {
      StepPaid(p, run[0], credit);
      RunPaid(Step(p, run[0]), run[1..], credit);
    }
  }

  /** Global progress: lost compare-and-swaps number at most (queues - 1) per granted burst,
      besides counts already outdated when the transmission began. */
  lemma LostRacesBounded(p: Port, run: seq<Action>, n: nat)
    requires Begins(p, n) && IsRun(p, run) && OneTransmission(run)
    ensures var last := Exec(p, run);
      last.failures <= StaleCount(p.cnt, p.pcs) + |last.grants| * (|p.pcs| - 1)
  {
    RunPaid(p, run, StaleCount(p.cnt, p.pcs));
  }

  /** So a whole transmission of n packets loses at most (queues - 1) * ceil(n / b) races, however
      long it takes and however the queues are scheduled. */
  lemma LostRacesOfATransmission(p: Port, run: seq<Action>, n: nat, b: int)
    requires Begins(p, n) && IsRun(p, run) && OneTransmission(run) && CommonBurst(run, b) && b > 0
    requires |p.pcs| > 0 && forall q :: 0 <= q < |p.pcs| ==> !p.pcs[q].Loaded?
    ensures Exec(p, run).failures <= ((n + b - 1) / b) * (|p.pcs| - 1)
  {
    NoneLoadedNoneStale(p.cnt, p.pcs);
    var granted, most, others := |Exec(p, run).grants|, (n + b - 1) / b, |p.pcs| - 1;
    assert Exec(p, run).failures <= granted * others by {
      LostRacesBounded(p, run, n);
    }
    assert granted <= most by {
      GrantsAreFullBursts(p, run, n, b);
    }
    MulMono(granted, most, others);
  }

  lemma {:induction false} NoneLoadedNoneStale(cnt: int, pcs: seq<Pc>)
    requires forall q :: 0 <= q < |pcs| ==> !pcs[q].Loaded?
    ensures StaleCount(cnt, pcs) == 0
  {
    if pcs != [] {
      assert forall q :: 0 <= q < |pcs[1..]| ==> pcs[1..][q] == pcs[q + 1];
      NoneLoadedNoneStale(cnt, pcs[1..]);
    }
  }

  // ----- the end of a transmission -----

  /** Once a queue has found the counter at zero, nothing more is granted until the next start,
      and a flag that is off stays off. */
  lemma {:induction false} NothingAfterTheFirstZero(p: Port, run: seq<Action>)
    requires IsRun(p, run) && OneTransmission(run) && WellLoaded(p) && p.cnt == 0
    ensures var last := Exec(p, run);
      last.cnt == 0 && last.grants == p.grants && (!p.sending ==> !last.sending && (!p.forever ==> !last.forever))
    decreases |run|
  {
    if run != [] {
      NothingAfterTheFirstZero(Step(p, run[0]), run[1..]);
    }
  }

  lemma {:induction false} RunSplit(p: Port, a: seq<Action>, b: seq<Action>)
    requires IsRun(p, a + b)
    ensures IsRun(p, a) && IsRun(Exec(p, a), b) && Exec(p, a + b) == Exec(Exec(p, a), b)
    decreases |a|
  {
    if a == [] {
      assert a + b == b;
    } else {
      assert (a + b)[0] == a[0] && (a + b)[1..] == a[1..] + b;
      RunSplit(Step(p, a[0]), a[1..], b);
    }
  }

  /** Whoever is about to clear the flags has seen the counter at zero, and it still is. */
  ghost predicate EmptyMeansZero(p: Port) {
    WellLoaded(p) && p.cnt >= 0 && (SomeEmpty(p) ==> p.cnt == 0)
  }

  lemma {:induction false} RunEmptyMeansZero(p: Port, run: seq<Action>)
    requires IsRun(p, run) && OneTransmission(run) && EmptyMeansZero(p)
    ensures EmptyMeansZero(Exec(p, run))
    decreases |run|
  {
    if run != [] {
      RunEmptyMeansZero(Step(p, run[0]), run[1..]);
    }
  }

  /** The end of a transmission: a queue gets to clearing the flags only when everything has been
      granted, and from its clearing on sending is off and nothing more is granted. */
  lemma ZeroGrantEndsSending(p: Port, before: seq<Action>, q: nat, after: seq<Action>)
    requires WellLoaded(p) && p.cnt >= 0 && !SomeEmpty(p)
    requires IsRun(p, before + [Clear(q)] + after) && OneTransmission(before + [Clear(q)] + after)
    ensures IsRun(p, before) && IsRun(p, before + [Clear(q)])
    ensures Exec(p, before).cnt == 0
    ensures var last := Exec(p, before + [Clear(q)] + after);
      last.cnt == 0 && last.grants == Exec(p, before).grants && !last.sending && !last.forever
  {
    var run := before + [Clear(q)] + after;
    RunSplit(p, before + [Clear(q)], after);
    RunSplit(p, before, [Clear(q)]);
    assert forall i :: 0 <= i < |before| ==> run[i] == before[i];
    assert forall i :: 0 <= i < |after| ==> run[|before| + 1 + i] == after[i];
    RunEmptyMeansZero(p, before);
    ClearedPort(Exec(p, before), q);
    NothingAfterTheFirstZero(Exec(p, before + [Clear(q)]), after);
  }

  lemma ClearedPort(p: Port, q: nat)
    requires IsRun(p, [Clear(q)]) && EmptyMeansZero(p)
    ensures p.cnt == 0 && Exec(p, [Clear(q)]) == Step(p, Clear(q)) && WellLoaded(Step(p, Clear(q)))
  {
    assert [Clear(q)][1..] == [];
    assert SomeEmpty(p);
  }

  ghost predicate SomeEmpty(p: Port) {
    exists q :: 0 <= q < |p.pcs| && p.pcs[q].Empty?
  }

  /** The port keeps sending as long as packets are left, unless told to stop. */
  ghost predicate SendsToTheEnd(p: Port) {
    forall run :: IsRun(p, run) && OneTransmission(run) && Stop !in run ==>
      Exec(p, run).cnt > 0 ==> Exec(p, run).sending
  }

  lemma {:induction false} SendingWhileLeft(p: Port, run: seq<Action>)
    requires IsRun(p, run) && OneTransmission(run) && Stop !in run && WellLoaded(p)
    requires p.cnt >= 0 && (p.cnt > 0 ==> p.sending && !SomeEmpty(p))
    ensures Exec(p, run).cnt > 0 ==> Exec(p, run).sending
    decreases |run|
  {
    if run != [] {
      var p' := Step(p, run[0]);
      assert run[0] != Stop;
      SendingWhileLeft(p', run[1..]);
    }
  }

  /** The port keeps sending unless told to stop. */
  ghost predicate SendsForever(p: Port) {
    forall run :: IsRun(p, run) && OneTransmission(run) && Stop !in run ==> Exec(p, run).sending
  }

  /** No queue has passed the test for sending forever without yet having gone back to the start. */
  ghost predicate AllOutside(p: Port) {
    forall q :: 0 <= q < |p.pcs| ==> p.pcs[q].Idle? || p.pcs[q].Gated?
  }

  lemma {:induction false} SendingForever(p: Port, run: seq<Action>)
    requires IsRun(p, run) && OneTransmission(run) && Stop !in run
    requires p.sending && p.forever && AllOutside(p)
    ensures Exec(p, run).sending
    decreases |run|
  {
    if run != [] {
      assert run[0] != Stop;
      SendingForever(Step(p, run[0]), run[1..]);
    }
  }

  /** With the counter at zero, a queue past the test for sending forever goes on to clear the flags. */
  lemma SwitchesOff(p: Port, q: nat) returns (run: seq<Action>)
    requires p.cnt == 0 && WellLoaded(p) && q < |p.pcs| && !p.pcs[q].Idle? && !p.pcs[q].Gated?
    ensures IsRun(p, run) && OneTransmission(run) && Stop !in run && !Exec(p, run).sending
  {
    NoSteps(p);
    run := [];
    if p.pcs[q].Loaded? {
      ExecAppend(p, run, Cas(q, 1));
      run := run + [Cas(q, 1)];
    }
    if !p.pcs[q].Empty? {
      ExecAppend(p, run, Load(q));
      run := run + [Load(q)];
    }
    ExecAppend(p, run, Clear(q));
    run := run + [Clear(q)];
  }

  lemma ForeverRestartIff(p: Port)
    requires !p.sending && WellLoaded(p)
    ensures SendsForever(Step(p, Start(0))) <==> AllOutside(p)
  {
    var started := Step(p, Start(0));
    if AllOutside(p) {
      forall run | IsRun(started, run) && OneTransmission(run) && Stop !in run ensures Exec(started, run).sending {
        SendingForever(started, run);
      }
    } else {
      var q :| 0 <= q < |p.pcs| && !p.pcs[q].Idle? && !p.pcs[q].Gated?;
      var run := SwitchesOff(started, q);
    }
  }

  lemma CountedRestartIff(p: Port, n: nat)
    requires !p.sending && n > 0 && WellLoaded(p)
    ensures SendsToTheEnd(Step(p, Start(n))) <==> !SomeEmpty(p)
  {
    var started := Step(p, Start(n));
    if SomeEmpty(p) {
      var q :| 0 <= q < |p.pcs| && p.pcs[q].Empty?;
      var run := [Clear(q)];
      assert Enabled(started, run[0]) && IsRun(started, run);
      var off := Step(started, run[0]);
      assert IsRun(off, run[1..]) && Exec(off, run[1..]) == off;
      assert Exec(started, run).cnt > 0 && !Exec(started, run).sending;
      assert !SendsToTheEnd(started);
    } else {
      forall run | IsRun(started, run) && OneTransmission(run) && Stop !in run
        ensures Exec(started, run).cnt > 0 ==> Exec(started, run).sending
      {
        SendingWhileLeft(started, run);
      }
    }
  }

  /** Starting a port again does not always work, because a queue may still be about to act on the
      transmission before.  For n > 0 packets the restart is sure to send everything exactly when no queue
      that saw the old counter at zero has yet to clear the flags.  For n == 0, sending forever, it is sure
      to go on exactly when every queue is before its test for sending forever: one past it would find the
      new counter at zero and clear the flags. */
  lemma RestartIff(p: Port, n: nat)
    requires !p.sending && WellLoaded(p)
    ensures n > 0 ==> (SendsToTheEnd(Step(p, Start(n))) <==> !SomeEmpty(p))
    ensures n == 0 ==> (SendsForever(Step(p, Start(n))) <==> AllOutside(p))
  {
    if n > 0 {
      CountedRestartIff(p, n);
    } else {
      ForeverRestartIff(p);
    }
  }

  lemma {:induction false} ExecAppend(p: Port, run: seq<Action>, a: Action)
    requires IsRun(p, run) && Enabled(Exec(p, run), a)
    ensures IsRun(p, run + [a]) && Exec(p, run + [a]) == Step(Exec(p, run), a)
    decreases |run|
  {
    if run == [] {
      assert IsRun(Step(p, a), []);
      assert (run + [a])[1..] == [];
    } else {
      ExecAppend(Step(p, run[0]), run[1..], a);
      assert (run + [a])[1..] == run[1..] + [a];
    }
  }

  /** A queue passes the two flag tests and reads the counter. */
  lemma ReadsCounter(p: Port, run: seq<Action>, q: nat) returns (run': seq<Action>)
    requires IsRun(p, run) && OneTransmission(run)
    requires var e := Exec(p, run); q < |e.pcs| && e.pcs[q].Idle? && e.sending && !e.forever
    ensures IsRun(p, run') && OneTransmission(run') && (forall b :: BurstsAtMost(run, b) ==> BurstsAtMost(run', b))
    ensures Stop !in run ==> Stop !in run'
    ensures var e := Exec(p, run);
      Exec(p, run') == e.(pcs := e.pcs[q := if e.cnt == 0 then Empty else Loaded(e.cnt)])
  {
    var e := Exec(p, run);
    ExecAppend(p, run, ReadSending(q));
    ExecAppend(p, run + [ReadSending(q)], ReadForever(q));
    ExecAppend(p, run + [ReadSending(q)] + [ReadForever(q)], Load(q));
    run' := run + [ReadSending(q)] + [ReadForever(q)] + [Load(q)];
    assert e.pcs[q := Gated][q := Ready] == e.pcs[q := Ready];
    assert Exec(p, run').pcs == e.pcs[q := if e.cnt == 0 then Empty else Loaded(e.cnt)];
  }

  /** Queue 0 goes on taking bursts until no packet is left. */
  lemma {:induction false} TakesAll(p: Port, run: seq<Action>, burst: int) returns (run': seq<Action>)
    requires IsRun(p, run) && OneTransmission(run) && BurstsAtMost(run, burst) && burst > 0 && Stop !in run
    requires var e := Exec(p, run); e.cnt >= 0 && e.sending && !e.forever && e.pcs != [] && e.pcs[0].Idle?
    ensures IsRun(p, run') && OneTransmission(run') && BurstsAtMost(run', burst) && Stop !in run'
    ensures var e, e' := Exec(p, run), Exec(p, run'); e'.cnt == 0 && e'.sending && !e'.forever && e'.pcs == e.pcs
    decreases Exec(p, run).cnt
  {
    hide IsRun, Exec;
    run' := run;
    if Exec(p, run).cnt > 0 {
      run' := ReadsCounter(p, run, 0);
      ExecAppend(p, run', Cas(0, burst));
      run' := run' + [Cas(0, burst)];
      assert Exec(p, run').pcs == Exec(p, run).pcs;
      run' := TakesAll(p, run', burst);
    }
  }

  function Begun(n: nat, queues: nat): Port {
    Port(n, true, false, seq(queues, _ => Idle), [], 0)
  }

  /** That position is a real one: on every port with two queues or more, every transmission can end with
      sending off and a queue still about to clear the flags. */
  lemma LateClearIsReachable(n: nat, burst: int, queues: nat) returns (run: seq<Action>)
    requires burst > 0 && queues >= 2
    ensures IsRun(Begun(n, queues), run) && OneTransmission(run) && BurstsAtMost(run, burst) && Stop !in run
    ensures var last := Exec(Begun(n, queues), run); !last.sending && SomeEmpty(last) && WellLoaded(last)
  {
    var begun := Begun(n, queues);
    hide IsRun, Exec;
    NoSteps(begun);
    run := TakesAll(begun, [], burst);
    run := ReadsCounter(begun, run, 0);
    run := ReadsCounter(begun, run, 1);
    ExecAppend(begun, run, Clear(0));
    run := run + [Clear(0)];
    var last := Exec(begun, run);
    assert last.pcs == begun.pcs[1 := Empty];
    assert last.pcs[1].Empty?;
    forall q | 0 <= q < |last.pcs| ensures !last.pcs[q].Loaded? {
    }
  }

  /** With a stop command in time, one queue is enough... */
  lemma LateClearAfterStop(n: nat, burst: int, queues: nat) returns (run: seq<Action>)
    requires burst > 0 && queues >= 1
    ensures IsRun(Begun(n, queues), run) && OneTransmission(run) && BurstsAtMost(run, burst)
    ensures var last := Exec(Begun(n, queues), run); !last.sending && SomeEmpty(last) && WellLoaded(last)
  {
    var begun := Begun(n, queues);
    hide IsRun, Exec;
    NoSteps(begun);
    run := TakesAll(begun, [], burst);
    run := ReadsCounter(begun, run, 0);
    ExecAppend(begun, run, Stop);
    run := run + [Stop];
    var last := Exec(begun, run);
    assert last.pcs == begun.pcs[0 := Empty];
    assert last.pcs[0].Empty?;
    forall q | 0 <= q < |last.pcs| ensures !last.pcs[q].Loaded? {
    }
  }

  /** ... and without one, it is not. */
  lemma {:induction false} OneQueueNeedsStop(p: Port, run: seq<Action>)
    requires |p.pcs| == 1 && (p.sending || p.pcs[0].Idle?)
    requires IsRun(p, run) && OneTransmission(run) && Stop !in run
    ensures Exec(p, run).sending || !SomeEmpty(Exec(p, run))
    decreases |run|
  {
    if run != [] {
      assert run[0] != Stop;
      OneQueueNeedsStop(Step(p, run[0]), run[1..]);
    }
  }

  /** The position in which starting to send forever fails is real, too, and one queue gets there: a stop
      between the two flag tests lets it through to the counter. */
  lemma LatePassIsReachable(queues: nat) returns (run: seq<Action>)
    requires queues >= 1
    ensures var begun := Begun(0, queues).(forever := true);
      IsRun(begun, run) && OneTransmission(run) &&
      var last := Exec(begun, run);
      !last.sending && !AllOutside(last) && !SomeEmpty(last) && WellLoaded(last)
  {
    var begun := Begun(0, queues).(forever := true);
    hide IsRun, Exec;
    NoSteps(begun);
    ExecAppend(begun, [], ReadSending(0));
    ExecAppend(begun, [] + [ReadSending(0)], Stop);
    ExecAppend(begun, [] + [ReadSending(0)] + [Stop], ReadForever(0));
    run := [] + [ReadSending(0)] + [Stop] + [ReadForever(0)];
    var last := Exec(begun, run);
    assert last.pcs == begun.pcs[0 := Ready];
    assert last.pcs[0].Ready?;
    forall q | 0 <= q < |last.pcs| ensures !last.pcs[q].Loaded? && !last.pcs[q].Empty? {
    }
  }

  lemma NoSteps(p: Port)
    ensures IsRun(p, []) && Exec(p, []) == p
  {
  }

  // ----- the loop itself -----

  /** What others take from a count when they ask for bursts one after the other. */
  function TakenBy(cnt: int, bursts: seq<nat>): int {
    if bursts == [] then 0
    else
      var before := TakenBy(cnt, bursts[..|bursts| - 1]);
      before + Share(cnt - before, bursts[|bursts| - 1])
  }

  class Counter {
    var cnt: int

    /** pkt_atomic64_tx_count as one queue runs it.  `others[i]` is what the other queues take
        between this queue's i-th read and its i-th compare-and-swap.  Each lost race is paid
        for by packets that went to somebody else, and only an empty counter yields nothing. */
    method TxCount(burst: int, others: seq<nat>) returns (granted: int, ghost taken: nat, ghost lost: nat)
      requires cnt >= 0 && burst > 0
      modifies this
      ensures cnt >= 0 && cnt + granted + taken == old(cnt)
      ensures 0 <= granted <= burst && (granted == 0 ==> cnt == 0)
      ensures granted > 0 ==> granted == Share(old(cnt) - taken, burst)
      ensures lost <= taken && lost <= |others| && taken == TakenBy(old(cnt), others[..lost])
    {
      granted, taken, lost := 0, 0, 0;
      var round := 0;
      var success := false;
      while !success
        invariant cnt >= 0 && lost <= taken && lost <= |others| && taken == TakenBy(old(cnt), others[..lost])
        invariant !success ==> round == lost
        invariant if success
          then 0 < granted == Share(old(cnt) - taken, burst) <= burst && cnt + granted + taken == old(cnt)
          else cnt + taken == old(cnt)
        decreases !success, |others| - round
      {
        var seen := cnt;
        if seen == 0 {
          return 0, taken, lost;
        }
        granted := Share(seen, burst);
        if round < |others| {
          var theirs := Share(cnt, others[round]);
          assert others[..round + 1][..round] == others[..round];
          cnt, taken := cnt - theirs, taken + theirs;
        }
        success := cnt == seen;
        if success {
          cnt := seen - granted;
        } else {
          lost := lost + 1;
        }
        round := round + 1;
      }
    }
  }
}
