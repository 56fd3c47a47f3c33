/** Pacing of bursts by the cycle counter (pktgen/app/pktgen.c, pktgen/app/pktgen-cmds.c).

    Each queue of a port is served by a loop on its own core that polls the cycle counter and,
    when the time has come, sends one burst and sets the time of the next. */
module TxPacing {
  import opened Arith
  import TxBudget

  /** The burst size that pktgen_set_port_pps fixes. */
  const BURST: nat := 32

  /** Cycles per packet, as pktgen_set_port_pps computes them. */
  function CyclesPerPacket(hz: nat, pps: nat): (cpp: nat)
    ensures 0 < pps ==> cpp * pps <= hz < (cpp + 1) * pps
    ensures 0 < pps <= hz ==> cpp > 0
  {
    if pps > 0 then
      assert hz == pps * (hz / pps) + hz % pps;
      hz / pps
    else hz / 4
  }

  /** Cycles between two bursts of one queue. */
  function TxCycles(hz: nat, pps: nat, queues: nat): nat {
    CyclesPerPacket(hz, pps) * BURST * queues
  }

  /** What a queue finds when it is its turn to transmit: the port is not sending; it sends forever; or
      the counter of packets left is at `left` when the queue takes its share.  Packet buffers may or may
      not be had. */
  datatype Turn =
    | Off
    | Forever(buffers: bool)
    | Counted(left: nat, buffers: bool)

  /** The data packets pktgen_main_transmit and pktgen_send_pkts hand to the device. */
  function Handed(turn: Turn): (packets: nat)
    ensures packets <= BURST
  {
    match turn
    case Off => 0
    case Forever(buffers) => if buffers then BURST else 0
    case Counted(left, buffers) => if buffers then TxBudget.Share(left, BURST) else 0
  }

  /** The cycle counter read in one round of the worker loop, and what the queue would find. */
  datatype Poll = Poll(tsc: nat, turn: Turn)

  datatype Send = Send(time: nat, packets: nat)

  /** What a worker sends from a list of polls when its next burst is due at `next`. */
  function Schedule(polls: seq<Poll>, next: nat, cycles: nat): (sends: seq<Send>)
    decreases |polls|
  {
    if polls == [] then []
    else
      var p := polls[0];
      if p.tsc >= next then [Send(p.tsc, Handed(p.turn))] + Schedule(polls[1..], p.tsc + cycles, cycles)
      else Schedule(polls[1..], next, cycles)
  }

  /** One round of a worker that serves several queues. */
  datatype Round = Round(tsc: nat, turns: seq<Turn>)

  /** The rounds as queue number e of the worker sees them. */
  function PollsOf(rounds: seq<Round>, e: nat): (polls: seq<Poll>)
    requires forall i :: 0 <= i < |rounds| ==> e < |rounds[i].turns|
    ensures |polls| == |rounds|
    decreases |rounds|
  {
    if rounds == [] then [] else [Poll(rounds[0].tsc, rounds[0].turns[e])] + PollsOf(rounds[1..], e)
  }

  /** The body of the round in which bursts are due: each queue of the worker in turn. */
  method TransmitAll(tsc: nat, turns: seq<Turn>, sends: seq<seq<Send>>) returns (r: seq<seq<Send>>)
    requires |turns| == |sends|
    ensures |r| == |sends| && forall e :: 0 <= e < |sends| ==> r[e] == sends[e] + [Send(tsc, Handed(turns[e]))]
  {
    r := [];
    var idx := 0;
    while idx < |sends|
      invariant idx <= |sends| && |r| == idx
      invariant forall e :: 0 <= e < idx ==> r[e] == sends[e] + [Send(tsc, Handed(turns[e]))]
    {
      r := r + [sends[idx] + [Send(tsc, Handed(turns[idx]))]];
      idx := idx + 1;
    }
  }

  /** Sends so far, and those a queue's remaining polls lead to, are those all its polls lead to. */
  ghost predicate OnSchedule(sends: seq<Send>, rest: seq<Poll>, next: nat, polls: seq<Poll>, first: nat, cycles: nat) {
    sends + Schedule(rest, next, cycles) == Schedule(polls, first, cycles)
  }

  lemma OnScheduleNext(sends: seq<Send>, rest: seq<Poll>, next: nat, polls: seq<Poll>, first: nat, cycles: nat)
    requires OnSchedule(sends, rest, next, polls, first, cycles) && rest != []
    ensures var p := rest[0];
      if p.tsc >= next then
        OnSchedule(sends + [Send(p.tsc, Handed(p.turn))], rest[1..], p.tsc + cycles, polls, first, cycles)
      else
        OnSchedule(sends, rest[1..], next, polls, first, cycles)
  {
    var p := rest[0];
    if p.tsc >= next {
      var rest', sent := Schedule(rest[1..], p.tsc + cycles, cycles), [Send(p.tsc, Handed(p.turn))];
      assert Schedule(rest, next, cycles) == sent + rest';
      assert sends + (sent + rest') == sends + sent + rest';
    }
  }

  /** pktgen_main_tx_loop for a worker with the given number of queues, paced by the cycles of its first
      port, until the rounds end.  Bursts with no packets, sent for bonded devices in between, do not
      show.  Every queue sends exactly what comes due on its own polls. */
  method TxLoop(start: nat, rounds: seq<Round>, queues: nat, cycles: nat, hz: nat) returns (sends: seq<seq<Send>>)
    requires forall i :: 0 <= i < |rounds| ==> |rounds[i].turns| == queues
    ensures |sends| == queues
    ensures forall e :: 0 <= e < queues ==> sends[e] == Schedule(PollsOf(rounds, e), start + cycles, cycles)
  {
    var next: nat, nextBond := start + cycles, start + hz / 10;
    sends := seq(queues, _ => []);
    var i := 0;
    assert rounds[0..] == rounds;
    while i < |rounds|
      invariant i <= |rounds| && |sends| == queues
      invariant forall e :: 0 <= e < queues ==>
        OnSchedule(sends[e], PollsOf(rounds[i..], e), next, PollsOf(rounds, e), start + cycles, cycles)
    {
      var curr := rounds[i].tsc;
      assert rounds[i..][0] == rounds[i] && rounds[i..][1..] == rounds[i + 1..];
      forall e | 0 <= e < queues
        ensures PollsOf(rounds[i..], e) == [Poll(curr, rounds[i].turns[e])] + PollsOf(rounds[i + 1..], e)
      {
      }
      forall e | 0 <= e < queues
        ensures var p := Poll(curr, rounds[i].turns[e]);
          if p.tsc >= next then
            OnSchedule(sends[e] + [Send(curr, Handed(p.turn))], PollsOf(rounds[i + 1..], e), curr + cycles,
              PollsOf(rounds, e), start + cycles, cycles)
          else
            OnSchedule(sends[e], PollsOf(rounds[i + 1..], e), next, PollsOf(rounds, e), start + cycles, cycles)
      {
        OnScheduleNext(sends[e], PollsOf(rounds[i..], e), next, PollsOf(rounds, e), start + cycles, cycles);
      }
      if curr >= next {
        next := curr + cycles;
        sends := TransmitAll(curr, rounds[i].turns, sends);
      } else if curr >= nextBond {
        nextBond := curr + hz / 10;
      }
      i := i + 1;
    }
  }

  ghost predicate Spaced(sends: seq<Send>, cycles: nat) {
    forall i :: 0 < i < |sends| ==> sends[i - 1].time + cycles <= sends[i].time
  }

  ghost predicate BurstSized(sends: seq<Send>) {
    forall i :: 0 <= i < |sends| ==> sends[i].packets <= BURST
  }

  /** Whatever the clock does, two bursts of a queue are at least `cycles` apart. */
  lemma {:induction false} ScheduleSpaced(polls: seq<Poll>, next: nat, cycles: nat)
    ensures var sends := Schedule(polls, next, cycles);
      Spaced(sends, cycles) && BurstSized(sends) && (sends != [] ==> sends[0].time >= next)
    decreases |polls|
  {
    if polls != [] {
      var p := polls[0];
      ScheduleSpaced(polls[1..], if p.tsc >= next then p.tsc + cycles else next, cycles);
    }
  }

  /** Packets sent in the `w` cycles from `a` on. */
  function InWindow(sends: seq<Send>, a: nat, w: nat): nat {
    if sends == [] then 0
    else (if a <= sends[0].time < a + w then sends[0].packets else 0) + InWindow(sends[1..], a, w)
  }

  function Span(time: nat, a: nat, w: nat): nat {
    if time < a + w then a + w - 1 - time else 0
  }

  lemma {:induction false} WindowFromFirst(sends: seq<Send>, cycles: nat, a: nat, w: nat)
    requires Spaced(sends, cycles) && BurstSized(sends) && sends != [] && sends[0].time >= a
    ensures (InWindow(sends, a, w) - BURST) * cycles <= BURST * Span(sends[0].time, a, w)
    ensures sends[0].time >= a + w ==> InWindow(sends, a, w) == 0
    decreases |sends|
  {
    var rest, first := sends[1..], sends[0];
    var n, m := InWindow(sends, a, w), InWindow(rest, a, w);
    assert n == m + if a <= first.time < a + w then first.packets else 0;
    if rest == [] {
      MulMono(n - BURST, 0, cycles);
    } else {
      assert rest[0] == sends[1] && first.time + cycles <= rest[0].time;
      assert forall i :: 0 < i < |rest| ==> rest[i] == sends[i + 1] && rest[i - 1] == sends[i];
      WindowFromFirst(rest, cycles, a, w);
      OneMoreBurst(n, m, cycles, Span(first.time, a, w), Span(rest[0].time, a, w), rest[0].time < a + w);
    }
  }

  /** One more burst in front costs `cycles` of the window. */
  lemma OneMoreBurst(n: nat, m: nat, cycles: nat, span: nat, shorter: nat, inside: bool)
    requires (m - BURST) * cycles <= BURST * shorter && n <= m + BURST
    requires if inside then span >= shorter + cycles else m == 0
    ensures (n - BURST) * cycles <= BURST * span
  {
    if inside {
      MulMono(n - BURST, m, cycles);
      assert m * cycles == (m - BURST) * cycles + BURST * cycles;
    } else {
      MulMono(n - BURST, 0, cycles);
    }
  }

  lemma {:induction false} WindowOfAQueue(sends: seq<Send>, cycles: nat, a: nat, w: nat)
    requires Spaced(sends, cycles) && BurstSized(sends) && w > 0
    ensures (InWindow(sends, a, w) - BURST) * cycles <= BURST * (w - 1)
    decreases |sends|
  {
    if sends == [] {
      MulMono(0 - BURST, 0, cycles);
    } else if sends[0].time >= a {
      WindowFromFirst(sends, cycles, a, w);
      assert Span(sends[0].time, a, w) <= w - 1;
    } else {
      var rest := sends[1..];
      assert forall i :: 0 < i < |rest| ==> rest[i] == sends[i + 1] && rest[i - 1] == sends[i];
      WindowOfAQueue(rest, cycles, a, w);
    }
  }

  function Total(queues: seq<seq<Send>>, a: nat, w: nat): nat {
    if queues == [] then 0 else InWindow(queues[0], a, w) + Total(queues[1..], a, w)
  }

  lemma {:induction false} SumOfQueues(queues: seq<seq<Send>>, c: nat, a: nat, w: nat)
    requires w > 0
    requires forall q :: 0 <= q < |queues| ==> (InWindow(queues[q], a, w) - BURST) * c <= w - 1
    ensures (Total(queues, a, w) - BURST * |queues|) * c <= |queues| * (w - 1)
    decreases |queues|
  {
    if queues != [] {
      var rest := queues[1..];
      SumOfQueues(rest, c, a, w);
      var x, y := InWindow(queues[0], a, w) - BURST, Total(rest, a, w) - BURST * |rest|;
      assert Total(queues, a, w) - BURST * |queues| == x + y;
      AddShares(x, y, c, |rest|, w - 1);
    }
  }

  lemma AddShares(x: int, y: int, c: nat, k: nat, each: nat)
    requires x * c <= each && y * c <= k * each
    ensures (x + y) * c <= (k + 1) * each
  {
    assert (x + y) * c == x * c + y * c;
    assert (k + 1) * each == k * each + each;
  }

  /** What the queues of a port send, each on its own polls. */
  function Sent(hz: nat, pps: nat, starts: seq<nat>, polls: seq<seq<Poll>>): (sent: seq<seq<Send>>)
    requires |polls| == |starts|
    ensures |sent| == |polls|
  {
    SentEvery(TxCycles(hz, pps, |polls|), starts, polls)
  }

  function SentEvery(cycles: nat, starts: seq<nat>, polls: seq<seq<Poll>>): (sent: seq<seq<Send>>)
    requires |polls| == |starts|
    ensures |sent| == |polls|
    ensures forall q :: 0 <= q < |polls| ==> sent[q] == Schedule(polls[q], starts[q] + cycles, cycles)
    decreases |polls|
  {
    if polls == [] then []
    else [Schedule(polls[0], starts[0] + cycles, cycles)] + SentEvery(cycles, starts[1..], polls[1..])
  }

  /** The rate limit.  However the cores are scheduled and whatever their clocks read, in any
      window of w cycles all queues of the port together send at most w / cpp packets and one
      burst for each queue. */
  lemma RateLimit(hz: nat, pps: nat, starts: seq<nat>, polls: seq<seq<Poll>>, a: nat, w: nat)
    requires 0 < pps <= hz && 0 < |polls| == |starts|
    ensures Total(Sent(hz, pps, starts, polls), a, w) <= w / CyclesPerPacket(hz, pps) + BURST * |polls|
  {
    var queues, cpp := |polls|, CyclesPerPacket(hz, pps);
    var cycles := TxCycles(hz, pps, queues);
    var sent := Sent(hz, pps, starts, polls);
    if w == 0 {
      EmptyWindow(sent, a);
    } else {
      hide Schedule, InWindow, Total, Spaced, BurstSized, CyclesPerPacket, Sent;
      var c := cpp * queues;
      assert cycles == BURST * c;
      forall q | 0 <= q < |sent| ensures (InWindow(sent[q], a, w) - BURST) * c <= w - 1 {
        ScheduleSpaced(polls[q], starts[q] + cycles, cycles);
        WindowOfAQueue(sent[q], cycles, a, w);
        DropFactor(InWindow(sent[q], a, w) - BURST, c, w - 1, BURST);
      }
      SumOfQueues(sent, c, a, w);
      FromSumToRate(Total(sent, a, w), cpp, queues, w);
    }
  }

  lemma FromSumToRate(total: nat, cpp: nat, queues: nat, w: nat)
    requires cpp > 0 && queues > 0 && w > 0
    requires (total - BURST * queues) * (cpp * queues) <= queues * (w - 1)
    ensures total <= w / cpp + BURST * queues
  {
    DropFactor(total - BURST * queues, cpp, w - 1, queues);
    AtMostQuotient(total - BURST * queues, cpp, w);
  }

  lemma DropFactor(x: int, c: nat, y: int, k: nat)
    requires k > 0 && (x * (k * c) <= k * y || x * (c * k) <= k * y)
    ensures x * c <= y
  {
    assert x * (k * c) == k * (x * c) && x * (c * k) == k * (x * c);
    if x * c > y {
      MulMono(y + 1, x * c, k);
    }
  }

  lemma AtMostQuotient(x: int, d: nat, w: nat)
    requires d > 0 && x * d <= w - 1
    ensures x <= w / d
  {
    assert w == d * (w / d) + w % d;
    if x > w / d {
      MulMono(w / d + 1, x, d);
    }
  }

  lemma {:induction false} EmptyWindow(queues: seq<seq<Send>>, a: nat)
    ensures Total(queues, a, 0) == 0
    decreases |queues|
  {
    if queues != [] {
      EmptyWindowOfAQueue(queues[0], a);
      EmptyWindow(queues[1..], a);
    }
  }

  lemma {:induction false} EmptyWindowOfAQueue(sends: seq<Send>, a: nat)
    ensures InWindow(sends, a, 0) == 0
    decreases |sends|
  {
    if sends != [] {
      EmptyWindowOfAQueue(sends[1..], a);
    }
  }

  // ----- when packets leave -----

  /** When the packets of each send were accepted by the device: the send loops spin until the whole burst
      is, so that is between the clock reading of their turn and that of the queue's next send. */
  ghost predicate Departures(sends: seq<Send>, times: seq<seq<nat>>) {
    |times| == |sends| &&
    (forall i :: 0 <= i < |sends| ==> |times[i]| == sends[i].packets && NotBefore(times[i], sends[i].time)) &&
    forall i :: 0 < i < |sends| ==> NotAfter(times[i - 1], sends[i].time)
  }

  ghost predicate NotBefore(times: seq<nat>, t: nat) {
    forall k :: 0 <= k < |times| ==> t <= times[k]
  }

  ghost predicate NotAfter(times: seq<nat>, t: nat) {
    forall k :: 0 <= k < |times| ==> times[k] <= t
  }

  /** How many of the times lie in the `w` cycles from `a` on. */
  function Within(times: seq<nat>, a: nat, w: nat): (n: nat)
    ensures n <= |times|
  {
    if times == [] then 0 else (if a <= times[0] < a + w then 1 else 0) + Within(times[1..], a, w)
  }

  function Departed(times: seq<seq<nat>>, a: nat, w: nat): nat {
    if times == [] then 0 else Within(times[0], a, w) + Departed(times[1..], a, w)
  }

  lemma {:induction false} NoneWithin(times: seq<nat>, a: nat, w: nat)
    requires forall k :: 0 <= k < |times| ==> times[k] < a || times[k] >= a + w
    ensures Within(times, a, w) == 0
  {
    if times != [] {
      NoneWithin(times[1..], a, w);
    }
  }

  lemma DeparturesRest(sends: seq<Send>, times: seq<seq<nat>>)
    requires sends != [] && Departures(sends, times)
    ensures Departures(sends[1..], times[1..])
  {
    var rest := sends[1..];
    assert forall i :: 0 <= i < |rest| ==> rest[i] == sends[i + 1] && times[1..][i] == times[i + 1];
  }

  lemma SpacedRest(sends: seq<Send>, cycles: nat)
    requires sends != [] && Spaced(sends, cycles) && BurstSized(sends)
    ensures Spaced(sends[1..], cycles) && BurstSized(sends[1..])
  {
    var rest := sends[1..];
    assert forall i :: 0 <= i < |rest| ==> rest[i] == sends[i + 1];
    assert forall i :: 0 < i < |rest| ==> rest[i - 1] == sends[i];
  }

  /** Sends whose turn comes in or after the window: no more packets leave in it than are due in it. */
  lemma {:induction false} DepartedFrom(sends: seq<Send>, times: seq<seq<nat>>, cycles: nat, a: nat, w: nat)
    requires Spaced(sends, cycles) && BurstSized(sends) && Departures(sends, times)
    requires sends != [] ==> sends[0].time >= a
    ensures Departed(times, a, w) <= InWindow(sends, a, w)
    decreases |sends|
  {
    if sends != [] {
      DeparturesRest(sends, times);
      SpacedRest(sends, cycles);
      assert |sends| > 1 ==> sends[1].time >= sends[0].time + cycles && sends[1..][0] == sends[1];
      DepartedFrom(sends[1..], times[1..], cycles, a, w);
      if sends[0].time >= a + w {
        NoneWithin(times[0], a, w);
      }
    }
  }

  /** Of the sends before the window only the last can still have packets leave in it. */
  lemma {:induction false} DepartedOfAQueue(sends: seq<Send>, times: seq<seq<nat>>, cycles: nat, a: nat, w: nat)
    requires Spaced(sends, cycles) && BurstSized(sends) && Departures(sends, times)
    ensures Departed(times, a, w) <= InWindow(sends, a, w) + BURST
    decreases |sends|
  {
    if sends == [] || sends[0].time >= a {
      DepartedFrom(sends, times, cycles, a, w);
    } else {
      DeparturesRest(sends, times);
      SpacedRest(sends, cycles);
      assert |sends| > 1 ==> sends[1..][0] == sends[1];
      if |sends| > 1 && sends[1].time < a {
        NoneWithin(times[0], a, w);
        DepartedOfAQueue(sends[1..], times[1..], cycles, a, w);
      } else {
        DepartedFrom(sends[1..], times[1..], cycles, a, w);
      }
    }
  }

  function TotalDeparted(times: seq<seq<seq<nat>>>, a: nat, w: nat): nat {
    if times == [] then 0 else Departed(times[0], a, w) + TotalDeparted(times[1..], a, w)
  }

  lemma {:induction false} SumOfDepartures(queues: seq<seq<Send>>, times: seq<seq<seq<nat>>>, cycles: nat,
      a: nat, w: nat)
    requires |times| == |queues|
    requires forall q :: 0 <= q < |queues| ==>
      Spaced(queues[q], cycles) && BurstSized(queues[q]) && Departures(queues[q], times[q])
    ensures TotalDeparted(times, a, w) <= Total(queues, a, w) + BURST * |queues|
    decreases |queues|
  {
    if queues != [] {
      DepartedOfAQueue(queues[0], times[0], cycles, a, w);
      SumOfDepartures(queues[1..], times[1..], cycles, a, w);
    }
  }

  /** The rate limit for packets as they leave, one burst of each queue being possibly late. */
  lemma DepartureLimit(hz: nat, pps: nat, starts: seq<nat>, polls: seq<seq<Poll>>,
      times: seq<seq<seq<nat>>>, a: nat, w: nat)
    requires 0 < pps <= hz && 0 < |polls| == |starts| == |times|
    requires forall q :: 0 <= q < |polls| ==> Departures(Sent(hz, pps, starts, polls)[q], times[q])
    ensures TotalDeparted(times, a, w) <= w / CyclesPerPacket(hz, pps) + 2 * BURST * |polls|
  {
    var sent, cycles := Sent(hz, pps, starts, polls), TxCycles(hz, pps, |polls|);
    RateLimit(hz, pps, starts, polls, a, w);
    forall q | 0 <= q < |sent| ensures Spaced(sent[q], cycles) && BurstSized(sent[q]) {
      ScheduleSpaced(polls[q], starts[q] + cycles, cycles);
    }
    SumOfDepartures(sent, times, cycles, a, w);
  }
}
