/** The flag words of a port (pktgen/app/pktgen.h) and the commands that keep some of the flags
    exclusive (pktgen/app/pktgen-cmds.c).

    Any number of threads change one word with compare-and-swap loops; reads and
    compare-and-swaps interleave freely. */
module PortFlags {

  /** A flag word is the set of the positions of its one bits. */
  type Word = set<nat>

  const SEND_PCAP_PKTS: nat := 3
  const SEND_RANGE_PKTS: nat := 4
  const SEND_SEQ_PKTS: nat := 5
  const SEND_VLAN_ID: nat := 11
  const SEND_MPLS_LABEL: nat := 14
  const SEND_Q_IN_Q_IDS: nat := 15
  const SEND_GRE_IPV4_HEADER: nat := 16
  const SEND_GRE_ETHER_HEADER: nat := 18

  /** The flags that belong to an exclusive group. */
  predicate Grouped(b: nat) {
    b == SEND_PCAP_PKTS || b == SEND_RANGE_PKTS || b == SEND_SEQ_PKTS ||
    b == SEND_VLAN_ID || b == SEND_MPLS_LABEL || b == SEND_Q_IN_Q_IDS ||
    b == SEND_GRE_IPV4_HEADER || b == SEND_GRE_ETHER_HEADER
  }

  /** One call of pktgen_set_port_flags or pktgen_clr_port_flags. */
  datatype Update = Set(mask: Word) | Clr(mask: Word) {
    function On(word: Word): Word {
      if Set? then word + mask else word - mask
    }
  }

  datatype Pc = Idle | Loaded(seen: Word)

  datatype Event = Event(thread: nat, update: Update)

  /** Each thread works through its own list of updates. */
  datatype System = System(
    word: Word,
    pcs: seq<Pc>,
    todo: seq<seq<Update>>,
    log: seq<Event>            // history: successful compare-and-swaps
  )

  datatype Action = Load(t: nat) | Cas(t: nat)

  predicate Enabled(s: System, a: Action) {
    |s.pcs| == |s.todo| && a.t < |s.pcs| && s.todo[a.t] != [] &&
    match a
    case Load(t) => s.pcs[t].Idle?
    case Cas(t) => s.pcs[t].Loaded?
  }

  function Step(s: System, a: Action): System
    requires Enabled(s, a)
  {
    match a
    case Load(t) => s.(pcs := s.pcs[t := Loaded(s.word)])
    case Cas(t) =>
      var u, seen := s.todo[t][0], s.pcs[t].seen;
      if s.word == seen then
        System(u.On(seen), s.pcs[t := Idle], s.todo[t := s.todo[t][1..]], s.log + [Event(t, u)])
      else
        s.(pcs := s.pcs[t := Idle])
  }

  ghost predicate IsRun(s: System, run: seq<Action>)
    decreases |run|
  {
    run == [] || (Enabled(s, run[0]) && IsRun(Step(s, run[0]), run[1..]))
  }

  ghost function Exec(s: System, run: seq<Action>): System
    requires IsRun(s, run)
    decreases |run|
  {
    if run == [] then s else Exec(Step(s, run[0]), run[1..])
  }

  function Initial(word: Word, scripts: seq<seq<Update>>): System {
    System(word, seq(|scripts|, _ => Idle), scripts, [])
  }

  // ----- concurrent updates are sequential updates, none lost -----

  /** The updates of a log, applied one at a time. */
  function Replay(word: Word, log: seq<Event>): Word {
    if log == [] then word else log[|log| - 1].update.On(Replay(word, log[..|log| - 1]))
  }

  /** What one thread has got done, in order. */
  function Done(log: seq<Event>, t: nat): seq<Update> {
    if log == [] then []
    else
      var last := log[|log| - 1];
      Done(log[..|log| - 1], t) + if last.thread == t then [last.update] else []
  }

  ghost predicate Linear(s: System, word: Word, scripts: seq<seq<Update>>) {
    s.word == Replay(word, s.log) && |s.todo| == |scripts| &&
    forall t :: 0 <= t < |scripts| ==> Done(s.log, t) + s.todo[t] == scripts[t]
  }

  lemma StepLinear(s: System, a: Action, word: Word, scripts: seq<seq<Update>>)
    requires Enabled(s, a) && Linear(s, word, scripts)
    ensures Linear(Step(s, a), word, scripts)
  {
    if a.Cas? && s.word == s.pcs[a.t].seen {
      var s' := Step(s, a);
      var e := Event(a.t, s.todo[a.t][0]);
      assert s'.log[..|s.log|] == s.log;
      forall t | 0 <= t < |scripts| ensures Done(s'.log, t) + s'.todo[t] == scripts[t] {
        if t == a.t {
          assert s.todo[t] == [e.update] + s'.todo[t];
          assert Done(s.log, t) + [e.update] + s'.todo[t] == Done(s.log, t) + s.todo[t];
        } else {
          assert Done(s'.log, t) == Done(s.log, t);
        }
      }
    }
  }

  lemma {:induction false} RunLinear(s: System, run: seq<Action>, word: Word, scripts: seq<seq<Update>>)
    requires IsRun(s, run) && Linear(s, word, scripts)
    ensures Linear(Exec(s, run), word, scripts)
    decreases |run|
  {
    if run != [] {
      StepLinear(s, run[0], word, scripts);
      RunLinear(Step(s, run[0]), run[1..], word, scripts);
    }
  }

  /** At every moment the word is what the completed updates give one after the other, in the order
      of their successful compare-and-swaps, and each thread's updates are completed in its own
      order with none lost. */
  lemma Linearizable(word: Word, scripts: seq<seq<Update>>, run: seq<Action>)
    requires IsRun(Initial(word, scripts), run)
    ensures var s := Exec(Initial(word, scripts), run);
      s.word == Replay(word, s.log) && |s.todo| == |scripts| &&
      forall t :: 0 <= t < |scripts| ==> Done(s.log, t) + s.todo[t] == scripts[t]
  {
    RunLinear(Initial(word, scripts), run, word, scripts);
  }

  /** The value of one flag after a log: the last update that names it decides. */
  function LastSays(log: seq<Event>, b: nat, before: bool): bool {
    if log == [] then before
    else
      var u := log[|log| - 1].update;
      if b in u.mask then u.Set? else LastSays(log[..|log| - 1], b, before)
  }

  lemma {:induction false} FlagIsLastUpdate(word: Word, log: seq<Event>, b: nat)
    ensures b in Replay(word, log) <==> LastSays(log, b, b in word)
  {
    if log != [] {
      FlagIsLastUpdate(word, log[..|log| - 1], b);
    }
  }

  // ----- exclusive flags -----

  datatype Command =
    | EnableRange(on: bool)
    | EnablePcap(loaded: bool, on: bool)  // loaded: the port has captured packets to send
    | SetSeqCnt(cnt: nat)
    | EnableVlan(on: bool)
    | EnableMpls(on: bool)
    | EnableQinq(on: bool)
    | EnableGre(on: bool)
    | EnableGreEth(on: bool)
    | Other(updates: seq<Update>)         // commands about other flags

  /** The updates a command makes, in order. */
  function Updates(c: Command): seq<Update> {
    match c
    case EnableRange(on) =>
      if on then [Clr({SEND_SEQ_PKTS}), Clr({SEND_PCAP_PKTS}), Set({SEND_RANGE_PKTS})] else [Clr({SEND_RANGE_PKTS})]
    case EnablePcap(loaded, on) =>
      if !loaded then []
      else if on then [Clr({SEND_RANGE_PKTS}), Clr({SEND_SEQ_PKTS}), Set({SEND_PCAP_PKTS})]
      else [Clr({SEND_PCAP_PKTS})]
    case SetSeqCnt(cnt) =>
      if cnt > 0 then [Clr({SEND_RANGE_PKTS}), Clr({SEND_PCAP_PKTS}), Set({SEND_SEQ_PKTS})] else [Clr({SEND_SEQ_PKTS})]
    case EnableVlan(on) =>
      if on then [Clr({SEND_MPLS_LABEL}), Clr({SEND_Q_IN_Q_IDS}), Set({SEND_VLAN_ID})] else [Clr({SEND_VLAN_ID})]
    case EnableMpls(on) =>
      if on then [Clr({SEND_VLAN_ID}), Clr({SEND_Q_IN_Q_IDS}), Set({SEND_MPLS_LABEL})] else [Clr({SEND_MPLS_LABEL})]
    case EnableQinq(on) =>
      if on then [Clr({SEND_VLAN_ID}), Clr({SEND_MPLS_LABEL}), Set({SEND_Q_IN_Q_IDS})] else [Clr({SEND_Q_IN_Q_IDS})]
    case EnableGre(on) =>
      if on then [Clr({SEND_GRE_ETHER_HEADER}), Set({SEND_GRE_IPV4_HEADER})] else [Clr({SEND_GRE_IPV4_HEADER})]
    case EnableGreEth(on) =>
      if on then [Clr({SEND_GRE_IPV4_HEADER}), Set({SEND_GRE_ETHER_HEADER})] else [Clr({SEND_GRE_ETHER_HEADER})]
    case Other(updates) => updates
  }

  ghost predicate AvoidsGroup(u: Update) {
    forall b :: b in u.mask ==> !Grouped(b)
  }

  ghost predicate AvoidsGroups(updates: seq<Update>) {
    forall i :: 0 <= i < |updates| ==> AvoidsGroup(updates[i])
  }

  ghost predicate Proper(c: Command) {
    c.Other? ==> AvoidsGroups(c.updates)
  }

  function Script(cs: seq<Command>): seq<Update> {
    if cs == [] then [] else Updates(cs[0]) + Script(cs[1..])
  }

  predicate NotBoth(word: Word, f: nat, g: nat) {
    f !in word || g !in word
  }

  /** At most one packet source, at most one tag, at most one GRE payload. */
  predicate Exclusive(word: Word) {
    NotBoth(word, SEND_RANGE_PKTS, SEND_SEQ_PKTS) && NotBoth(word, SEND_RANGE_PKTS, SEND_PCAP_PKTS) &&
    NotBoth(word, SEND_SEQ_PKTS, SEND_PCAP_PKTS) &&
    NotBoth(word, SEND_VLAN_ID, SEND_MPLS_LABEL) && NotBoth(word, SEND_VLAN_ID, SEND_Q_IN_Q_IDS) &&
    NotBoth(word, SEND_MPLS_LABEL, SEND_Q_IN_Q_IDS) &&
    NotBoth(word, SEND_GRE_IPV4_HEADER, SEND_GRE_ETHER_HEADER)
  }

  /** The word is exclusive now and after each of the updates still to come. */
  ghost predicate Safe(word: Word, updates: seq<Update>)
    decreases |updates|
  {
    Exclusive(word) && (updates == [] || Safe(updates[0].On(word), updates[1..]))
  }

  ghost predicate SameGroups(w: Word, v: Word) {
    forall b :: Grouped(b) ==> (b in w <==> b in v)
  }

  /** Safety looks at the grouped flags only. */
  lemma {:induction false} SafeDependsOnGroups(w: Word, v: Word, updates: seq<Update>)
    requires SameGroups(w, v) && Safe(w, updates)
    ensures Safe(v, updates)
    decreases |updates|
  {
    assert Grouped(SEND_PCAP_PKTS) && Grouped(SEND_RANGE_PKTS) && Grouped(SEND_SEQ_PKTS);
    assert Grouped(SEND_VLAN_ID) && Grouped(SEND_MPLS_LABEL) && Grouped(SEND_Q_IN_Q_IDS);
    assert Grouped(SEND_GRE_IPV4_HEADER) && Grouped(SEND_GRE_ETHER_HEADER);
    if updates != [] {
      SafeDependsOnGroups(updates[0].On(w), updates[0].On(v), updates[1..]);
    }
  }

  function RunUpdates(word: Word, updates: seq<Update>): Word
    decreases |updates|
  {
    if updates == [] then word else RunUpdates(updates[0].On(word), updates[1..])
  }

  lemma {:induction false} SafeAppend(word: Word, us: seq<Update>, vs: seq<Update>)
    requires Safe(word, us) && Safe(RunUpdates(word, us), vs)
    ensures Safe(word, us + vs)
    decreases |us|
  {
    if us == [] {
      assert us + vs == vs;
    } else {
      assert (us + vs)[1..] == us[1..] + vs;
      SafeAppend(us[0].On(word), us[1..], vs);
    }
  }

  lemma SafeThree(word: Word, u0: Update, u1: Update, u2: Update)
    requires var w1 := u0.On(word); var w2 := u1.On(w1);
      Exclusive(word) && Exclusive(w1) && Exclusive(w2) && Exclusive(u2.On(w2))
    ensures Safe(word, [u0, u1, u2]) && Exclusive(RunUpdates(word, [u0, u1, u2]))
  {
    var w1 := u0.On(word);
    var w2 := u1.On(w1);
    assert [u0, u1, u2][1..] == [u1, u2] && [u1, u2][1..] == [u2] && [u2][1..] == [];
    assert Safe(u2.On(w2), []) && Safe(w2, [u2]) && Safe(w1, [u1, u2]);
    assert RunUpdates(w2, [u2]) == u2.On(w2);
    assert RunUpdates(w1, [u1, u2]) == u2.On(w2);
  }

  lemma SafeTwo(word: Word, u0: Update, u1: Update)
    requires Exclusive(word) && Exclusive(u0.On(word)) && Exclusive(u1.On(u0.On(word)))
    ensures Safe(word, [u0, u1]) && Exclusive(RunUpdates(word, [u0, u1]))
  {
    var w1 := u0.On(word);
    assert [u0, u1][1..] == [u1] && [u1][1..] == [];
    assert Safe(u1.On(w1), []) && Safe(w1, [u1]);
    assert RunUpdates(w1, [u1]) == u1.On(w1);
  }

  lemma SafeOne(word: Word, u: Update)
    requires Exclusive(word) && Exclusive(u.On(word))
    ensures Safe(word, [u]) && Exclusive(RunUpdates(word, [u]))
  {
    assert [u][1..] == [];
    assert Safe(u.On(word), []);
  }

  lemma {:induction false} SafeOther(word: Word, updates: seq<Update>)
    requires Exclusive(word) && AvoidsGroups(updates)
    ensures Safe(word, updates) && Exclusive(RunUpdates(word, updates))
    decreases |updates|
  {
    if updates != [] {
      assert AvoidsGroup(updates[0]);
      SafeDependsOnGroups(word, updates[0].On(word), []);
      SafeOther(updates[0].On(word), updates[1..]);
    }
  }

  /** Every command keeps the flags exclusive, also between its single updates. */
  lemma CommandSafe(word: Word, c: Command)
    requires Exclusive(word) && Proper(c)
    ensures Safe(word, Updates(c)) && Exclusive(RunUpdates(word, Updates(c)))
  {
    var us := Updates(c);
    if c.Other? {
      SafeOther(word, us);
    } else if |us| == 3 {
      SafeThree(word, us[0], us[1], us[2]);
    } else if |us| == 2 {
      SafeTwo(word, us[0], us[1]);
    } else if |us| == 1 {
      SafeOne(word, us[0]);
    }
  }

  lemma {:induction false} ScriptSafe(word: Word, cs: seq<Command>)
    requires Exclusive(word) && forall i :: 0 <= i < |cs| ==> Proper(cs[i])
    ensures Safe(word, Script(cs))
    decreases |cs|
  {
    if cs != [] {
      CommandSafe(word, cs[0]);
      ScriptSafe(RunUpdates(word, Updates(cs[0])), cs[1..]);
      SafeAppend(word, Updates(cs[0]), Script(cs[1..]));
    }
  }

  // ----- several threads issuing commands -----

  /** The command turns on flag f of a group. */
  predicate Enables(c: Command, f: nat) {
    match c
    case EnableRange(on) => on && f == SEND_RANGE_PKTS
    case EnablePcap(loaded, on) => loaded && on && f == SEND_PCAP_PKTS
    case SetSeqCnt(cnt) => cnt > 0 && f == SEND_SEQ_PKTS
    case EnableVlan(on) => on && f == SEND_VLAN_ID
    case EnableMpls(on) => on && f == SEND_MPLS_LABEL
    case EnableQinq(on) => on && f == SEND_Q_IN_Q_IDS
    case EnableGre(on) => on && f == SEND_GRE_IPV4_HEADER
    case EnableGreEth(on) => on && f == SEND_GRE_ETHER_HEADER
    case Other(_) => false
  }

  predicate SomeEnables(cs: seq<Command>, f: nat) {
    exists a :: 0 <= a < |cs| && Enables(cs[a], f)
  }

  /** The group of a flag; 0 for flags in no group. */
  function Group(b: nat): nat {
    if b == SEND_PCAP_PKTS || b == SEND_RANGE_PKTS || b == SEND_SEQ_PKTS then 1
    else if b == SEND_VLAN_ID || b == SEND_MPLS_LABEL || b == SEND_Q_IN_Q_IDS then 2
    else if b == SEND_GRE_IPV4_HEADER || b == SEND_GRE_ETHER_HEADER then 3
    else 0
  }

  /** Two different flags of one group. */
  predicate Rivals(f: nat, g: nat) {
    f != g && Group(f) == Group(g) && Group(f) != 0
  }

  /** Two different threads hold commands that turn on two different flags of one group. */
  ghost predicate Contended(threads: seq<seq<Command>>) {
    exists i, j, f, g ::
      0 <= i < |threads| && 0 <= j < |threads| && i != j && Rivals(f, g) &&
      SomeEnables(threads[i], f) && SomeEnables(threads[j], g)
  }

  ghost predicate AllProper(threads: seq<seq<Command>>) {
    forall i, a :: 0 <= i < |threads| && 0 <= a < |threads[i]| ==> Proper(threads[i][a])
  }

  function Scripts(threads: seq<seq<Command>>): (r: seq<seq<Update>>)
    ensures |r| == |threads| && forall i :: 0 <= i < |r| ==> r[i] == Script(threads[i])
  {
    seq(|threads|, i requires 0 <= i < |threads| => Script(threads[i]))
  }

  lemma ExclusivePairs(word: Word)
    ensures Exclusive(word) <==> forall f, g :: Rivals(f, g) ==> NotBoth(word, f, g)
  {
    assert Rivals(SEND_RANGE_PKTS, SEND_SEQ_PKTS) && Rivals(SEND_RANGE_PKTS, SEND_PCAP_PKTS);
    assert Rivals(SEND_SEQ_PKTS, SEND_PCAP_PKTS) && Rivals(SEND_VLAN_ID, SEND_MPLS_LABEL);
    assert Rivals(SEND_VLAN_ID, SEND_Q_IN_Q_IDS) && Rivals(SEND_MPLS_LABEL, SEND_Q_IN_Q_IDS);
    assert Rivals(SEND_GRE_IPV4_HEADER, SEND_GRE_ETHER_HEADER);
  }

  predicate NeverSets(updates: seq<Update>, f: nat) {
    forall k :: 0 <= k < |updates| && updates[k].Set? ==> f !in updates[k].mask
  }

  lemma CommandNeverSets(c: Command, f: nat)
    requires Proper(c) && Group(f) != 0 && !Enables(c, f)
    ensures NeverSets(Updates(c), f)
  {
    if c.Other? {
      forall k | 0 <= k < |c.updates| && c.updates[k].Set? ensures f !in c.updates[k].mask {
        assert AvoidsGroup(c.updates[k]);
      }
    }
  }

  lemma {:induction false} ScriptNeverSets(cs: seq<Command>, f: nat)
    requires forall a :: 0 <= a < |cs| ==> Proper(cs[a])
    requires Group(f) != 0 && !SomeEnables(cs, f)
    ensures NeverSets(Script(cs), f)
    decreases |cs|
  {
    if cs != [] {
      assert !Enables(cs[0], f);
      CommandNeverSets(cs[0], f);
      assert forall a :: 0 <= a < |cs| - 1 ==> cs[1..][a] == cs[a + 1];
      ScriptNeverSets(cs[1..], f);
    }
  }

  lemma CommandSets(c: Command, f: nat) returns (k: nat)
    requires Enables(c, f)
    ensures k < |Updates(c)| && Updates(c)[k] == Set({f})
  {
    k := |Updates(c)| - 1;
  }

  lemma {:induction false} ScriptSets(cs: seq<Command>, f: nat) returns (k: nat)
    requires SomeEnables(cs, f)
    ensures k < |Script(cs)| && Script(cs)[k] == Set({f})
    decreases |cs|
  {
    if Enables(cs[0], f) {
      k := CommandSets(cs[0], f);
    } else {
      var a :| 0 <= a < |cs| && Enables(cs[a], f);
      assert Enables(cs[1..][a - 1], f);
      k := ScriptSets(cs[1..], f);
      k := |Updates(cs[0])| + k;
    }
  }

  /** Not both of f and g are set now, nor after any of the updates still to come. */
  ghost predicate PairSafe(word: Word, updates: seq<Update>, f: nat, g: nat)
    decreases |updates|
  {
    NotBoth(word, f, g) && (updates == [] || PairSafe(updates[0].On(word), updates[1..], f, g))
  }

  lemma {:induction false} SafePair(word: Word, updates: seq<Update>, f: nat, g: nat)
    requires Safe(word, updates) && Rivals(f, g)
    ensures PairSafe(word, updates, f, g)
    decreases |updates|
  {
    ExclusivePairs(word);
    if updates != [] {
      SafePair(updates[0].On(word), updates[1..], f, g);
    }
  }

  /** Clearing f or g from outside does no harm. */
  lemma {:induction false} FewerIsSafe(w: Word, v: Word, updates: seq<Update>, f: nat, g: nat)
    requires PairSafe(w, updates, f, g) && (f in v ==> f in w) && (g in v ==> g in w)
    ensures PairSafe(v, updates, f, g)
    decreases |updates|
  {
    if updates != [] {
      FewerIsSafe(updates[0].On(w), updates[0].On(v), updates[1..], f, g);
    }
  }

  /** Nobody sets f any more; and while it is still set, every thread clears it before setting g. */
  ghost predicate Retired(s: System, f: nat, g: nat) {
    (forall t :: 0 <= t < |s.todo| ==> NeverSets(s.todo[t], f)) &&
    (f in s.word ==> forall t :: 0 <= t < |s.todo| ==> PairSafe(s.word, s.todo[t], f, g))
  }

  /** Only thread i sets f or g, and it never makes both set. */
  ghost predicate Owned(s: System, i: nat, f: nat, g: nat) {
    i < |s.todo| && PairSafe(s.word, s.todo[i], f, g) &&
    forall t :: 0 <= t < |s.todo| && t != i ==> NeverSets(s.todo[t], f) && NeverSets(s.todo[t], g)
  }

  lemma StepRetired(s: System, a: Action, f: nat, g: nat)
    requires Enabled(s, a) && Retired(s, f, g) && NotBoth(s.word, f, g)
    ensures Retired(Step(s, a), f, g) && NotBoth(Step(s, a).word, f, g)
  {
    var s' := Step(s, a);
    if a.Cas? && s.word == s.pcs[a.t].seen {
      var u, rest := s.todo[a.t][0], s.todo[a.t][1..];
      assert NeverSets(s.todo[a.t], f);
      assert forall k :: 0 <= k < |rest| ==> rest[k] == s.todo[a.t][k + 1];
      if f in s'.word {
        assert u.Set? ==> f !in u.mask;
        assert f in s.word && PairSafe(s.word, s.todo[a.t], f, g);
        assert PairSafe(u.On(s.word), rest, f, g);
        forall t | 0 <= t < |s'.todo| ensures PairSafe(s'.word, s'.todo[t], f, g) {
          if t != a.t {
            FewerIsSafe(s.word, s'.word, s.todo[t], f, g);
          }
        }
      }
    }
  }

  lemma StepOwned(s: System, a: Action, i: nat, f: nat, g: nat)
    requires Enabled(s, a) && Owned(s, i, f, g)
    ensures Owned(Step(s, a), i, f, g) && NotBoth(s.word, f, g)
  {
    var s' := Step(s, a);
    if a.Cas? && s.word == s.pcs[a.t].seen && a.t != i {
      var u, rest := s.todo[a.t][0], s.todo[a.t][1..];
      assert NeverSets(s.todo[a.t], f) && NeverSets(s.todo[a.t], g);
      assert forall k :: 0 <= k < |rest| ==> rest[k] == s.todo[a.t][k + 1];
      assert u.Set? ==> f !in u.mask && g !in u.mask;
      FewerIsSafe(s.word, s'.word, s.todo[i], f, g);
    }
  }

  lemma {:induction false} RunRetired(s: System, run: seq<Action>, f: nat, g: nat)
    requires IsRun(s, run) && Retired(s, f, g) && NotBoth(s.word, f, g)
    ensures NotBoth(Exec(s, run).word, f, g)
    decreases |run|
  {
    if run != [] {
      StepRetired(s, run[0], f, g);
      RunRetired(Step(s, run[0]), run[1..], f, g);
    }
  }

  lemma {:induction false} RunOwned(s: System, run: seq<Action>, i: nat, f: nat, g: nat)
    requires IsRun(s, run) && Owned(s, i, f, g)
    ensures NotBoth(Exec(s, run).word, f, g)
    decreases |run|
  {
    if run != [] {
      StepOwned(s, run[0], i, f, g);
      RunOwned(Step(s, run[0]), run[1..], i, f, g);
    }
  }

  /** Without contention either nobody sets one of two rivals, or one thread alone sets them. */
  lemma PairKept(word: Word, threads: seq<seq<Command>>, run: seq<Action>, f: nat, g: nat)
    requires Exclusive(word) && AllProper(threads) && !Contended(threads) && Rivals(f, g)
    requires IsRun(Initial(word, Scripts(threads)), run)
    ensures NotBoth(Exec(Initial(word, Scripts(threads)), run).word, f, g)
  {
    var s := Initial(word, Scripts(threads));
    ExclusivePairs(word);
    forall t | 0 <= t < |threads| ensures PairSafe(word, s.todo[t], f, g) {
      ScriptSafe(word, threads[t]);
      SafePair(word, s.todo[t], f, g);
    }
    forall t, h | 0 <= t < |threads| && (h == f || h == g) && !SomeEnables(threads[t], h)
      ensures NeverSets(s.todo[t], h)
    {
      ScriptNeverSets(threads[t], h);
    }
    if i :| 0 <= i < |threads| && SomeEnables(threads[i], f) {
      if j :| 0 <= j < |threads| && SomeEnables(threads[j], g) {
        assert Rivals(g, f);
        RunOwned(s, run, i, f, g);
      } else {
        forall t | 0 <= t < |s.todo| ensures PairSafe(word, s.todo[t], g, f) {
          SwapPair(word, s.todo[t], f, g);
        }
        RunRetired(s, run, g, f);
      }
    } else {
      RunRetired(s, run, f, g);
    }
  }

  lemma {:induction false} SwapPair(word: Word, updates: seq<Update>, f: nat, g: nat)
    requires PairSafe(word, updates, f, g)
    ensures PairSafe(word, updates, g, f)
    decreases |updates|
  {
    if updates != [] {
      SwapPair(updates[0].On(word), updates[1..], f, g);
    }
  }

  /** Threads issuing commands at the same time keep every group exclusive at every step of every
      interleaving, exactly when no two of them turn on two different flags of one group. */
  lemma ExclusiveIff(word: Word, threads: seq<seq<Command>>)
    requires Exclusive(word) && AllProper(threads)
    ensures (forall run :: IsRun(Initial(word, Scripts(threads)), run) ==>
        Exclusive(Exec(Initial(word, Scripts(threads)), run).word)) <==> !Contended(threads)
  {
    var s := Initial(word, Scripts(threads));
    if Contended(threads) {
      var i, j, f, g :|
        0 <= i < |threads| && 0 <= j < |threads| && i != j && Rivals(f, g) &&
        SomeEnables(threads[i], f) && SomeEnables(threads[j], g);
      var run := Clash(word, threads, i, j, f, g);
      ExclusivePairs(Exec(s, run).word);
    } else {
      forall run | IsRun(s, run) ensures Exclusive(Exec(s, run).word) {
        forall f, g | Rivals(f, g) ensures NotBoth(Exec(s, run).word, f, g) {
          PairKept(word, threads, run, f, g);
        }
        ExclusivePairs(Exec(s, run).word);
      }
    }
  }

  /** Two threads that turn on two different flags can both be about to do so, the other flag already
      cleared, and then leave both set. */
  lemma Clash(word: Word, threads: seq<seq<Command>>, i: nat, j: nat, f: nat, g: nat) returns (run: seq<Action>)
    requires i < |threads| && j < |threads| && i != j && SomeEnables(threads[i], f) && SomeEnables(threads[j], g)
    ensures IsRun(Initial(word, Scripts(threads)), run)
    ensures f in Exec(Initial(word, Scripts(threads)), run).word && g in Exec(Initial(word, Scripts(threads)), run).word
  {
    var s := Initial(word, Scripts(threads));
    var a := ScriptSets(threads[i], f);
    var b := ScriptSets(threads[j], g);
    run := [];
    run := Through(s, run, i, a);
    run := Through(s, run, j, b);
    run := Undisturbed(s, run, i);
    run := Undisturbed(s, run, j);
  }

  /** A run followed by the next k updates of one thread. */
  lemma {:induction false} Through(s: System, run: seq<Action>, t: nat, k: nat) returns (run': seq<Action>)
    requires IsRun(s, run)
    requires var e := Exec(s, run);
      |e.pcs| == |e.todo| && t < |e.pcs| && k <= |e.todo[t]| && e.pcs[t].Idle?
    ensures IsRun(s, run')
    ensures var e, e' := Exec(s, run), Exec(s, run');
      e'.pcs == e.pcs && e'.todo == e.todo[t := e.todo[t][k..]]
    decreases k
  {
    if k == 0 {
      run' := run;
    } else {
      run' := Undisturbed(s, run, t);
      run' := Through(s, run', t, k - 1);
    }
  }

  /** With one thread issuing commands and any number of others changing flags outside the groups,
      at every step of every interleaving at most one flag of each group is set. */
  lemma ExclusiveThroughout(word: Word, commands: seq<Command>, others: seq<seq<Update>>, run: seq<Action>)
    requires Exclusive(word)
    requires forall i :: 0 <= i < |commands| ==> Proper(commands[i])
    requires forall t :: 0 <= t < |others| ==> AvoidsGroups(others[t])
    requires IsRun(Initial(word, [Script(commands)] + others), run)
    ensures Exclusive(Exec(Initial(word, [Script(commands)] + others), run).word)
  {
    BystanderScripts(commands, others);
    BystandersProper(commands, others);
    BystandersEnableNothing(commands, others);
    hide AllProper, Contended, Scripts, AvoidsGroups, Exclusive, IsRun, Exec, Initial;
    ExclusiveIff(word, [commands] + Bystanders(others));
  }

  lemma BystanderScripts(commands: seq<Command>, others: seq<seq<Update>>)
    ensures Scripts([commands] + Bystanders(others)) == [Script(commands)] + others
  {
    hide Script, SomeEnables;
    forall t | 0 <= t < |others| ensures Script(Bystanders(others)[t]) == others[t] {
      BystanderScript(others[t]);
    }
  }

  lemma BystandersProper(commands: seq<Command>, others: seq<seq<Update>>)
    requires forall i :: 0 <= i < |commands| ==> Proper(commands[i])
    requires forall t :: 0 <= t < |others| ==> AvoidsGroups(others[t])
    ensures AllProper([commands] + Bystanders(others))
  {
    hide AvoidsGroups;
  }

  lemma BystandersEnableNothing(commands: seq<Command>, others: seq<seq<Update>>)
    ensures !Contended([commands] + Bystanders(others))
  {
    hide Script, SomeEnables;
    var threads := [commands] + Bystanders(others);
    forall t, f | 0 < t < |threads| ensures !SomeEnables(threads[t], f) {
      assert threads[t] == Bystanders(others)[t - 1];
      BystanderScript(others[t - 1]);
    }
    OneIssuer(threads);
  }

  lemma OneIssuer(threads: seq<seq<Command>>)
    requires forall t, f :: 0 < t < |threads| ==> !SomeEnables(threads[t], f)
    ensures !Contended(threads)
  {
    hide SomeEnables, Rivals;
  }

  function Bystanders(others: seq<seq<Update>>): (threads: seq<seq<Command>>)
    ensures |threads| == |others| && forall t :: 0 <= t < |others| ==> threads[t] == [Other(others[t])]
  {
    seq(|others|, t requires 0 <= t < |others| => [Other(others[t])])
  }

  lemma BystanderScript(updates: seq<Update>)
    ensures Script([Other(updates)]) == updates && forall f :: !SomeEnables([Other(updates)], f)
  {
    assert [Other(updates)][1..] == [] && Script([]) == [];
  }

  lemma {:induction false} RunUpdatesAppend(word: Word, us: seq<Update>, vs: seq<Update>)
    ensures RunUpdates(word, us + vs) == RunUpdates(RunUpdates(word, us), vs)
    decreases |us|
  {
    if us == [] {
      assert us + vs == vs;
    } else {
      assert (us + vs)[1..] == us[1..] + vs;
      RunUpdatesAppend(us[0].On(word), us[1..], vs);
    }
  }

  function Flatten(ss: seq<seq<Update>>): seq<Update> {
    if ss == [] then [] else Flatten(ss[..|ss| - 1]) + ss[|ss| - 1]
  }

  class FlagWord {
    var word: Word

    /** pktgen_set_port_flags and pktgen_clr_port_flags as one thread runs them: `others[i]` are
        the updates other threads complete between its i-th read and its i-th compare-and-swap.
        The call acts as its one update applied after all of theirs in the rounds it took. */
    method Change(u: Update, others: seq<seq<Update>>) returns (ghost rounds: nat)
      modifies this
      ensures rounds <= |others| && word == u.On(RunUpdates(old(word), Flatten(others[..rounds])))
    {
      var round := 0;
      rounds := 0;
      ghost var theirs := [];
      var success := false;
      while !success
        invariant rounds == (if round <= |others| then round else |others|) && theirs == Flatten(others[..rounds])
        invariant word == if success then u.On(RunUpdates(old(word), theirs)) else RunUpdates(old(word), theirs)
        decreases !success, |others| - round
      {
        var val := word;
        if round < |others| {
          RunUpdatesAppend(old(word), theirs, others[round]);
          assert others[..round + 1][..round] == others[..round];
          word := RunUpdates(word, others[round]);
          theirs, rounds := theirs + others[round], round + 1;
        }
        success := word == val;
        if success {
          word := u.On(val);
        }
        round := round + 1;
      }
    }
  }

  /** Two threads, one enabling the range and one the sequence source. */
  function TwoControllers(): System {
    Initial({}, [Updates(EnableRange(true)), Updates(SetSeqCnt(1))])
  }

  /** A concrete clash: two threads that enable different sources at the same time can leave both
      enabled. */
  lemma TwoControllersCanClash()
    ensures exists run :: IsRun(TwoControllers(), run) && !Exclusive(Exec(TwoControllers(), run).word)
  {
    var s0 := TwoControllers();
    var run := [];
    run := Undisturbed(s0, run, 0);
    run := Undisturbed(s0, run, 0);
    run := Undisturbed(s0, run, 1);
    run := Undisturbed(s0, run, 1);
    run := Undisturbed(s0, run, 0);
    run := Undisturbed(s0, run, 1);
    assert Exec(s0, run).word == {SEND_RANGE_PKTS, SEND_SEQ_PKTS};
  }

  /** A run followed by an undisturbed read and compare-and-swap of one thread. */
  lemma Undisturbed(s: System, run: seq<Action>, t: nat) returns (run': seq<Action>)
    requires IsRun(s, run)
    requires var e := Exec(s, run);
      |e.pcs| == |e.todo| && t < |e.pcs| && e.todo[t] != [] && e.pcs[t].Idle?
    ensures IsRun(s, run')
    ensures var e, e' := Exec(s, run), Exec(s, run');
      e'.word == e.todo[t][0].On(e.word) && e'.pcs == e.pcs && e'.todo == e.todo[t := e.todo[t][1..]]
  {
    ExecAppend(s, run, Load(t));
    ExecAppend(s, run + [Load(t)], Cas(t));
    run' := run + [Load(t)] + [Cas(t)];
    assert Exec(s, run').pcs == Exec(s, run).pcs;
  }

  lemma {:induction false} ExecAppend(s: System, run: seq<Action>, a: Action)
    requires IsRun(s, run) && Enabled(Exec(s, run), a)
    ensures IsRun(s, run + [a]) && Exec(s, run + [a]) == Step(Exec(s, run), a)
    decreases |run|
  {
    if run == [] {
      assert IsRun(Step(s, a), []);
      assert (run + [a])[1..] == [];
    } else {
      ExecAppend(Step(s, run[0]), run[1..], a);
      assert (run + [a])[1..] == run[1..] + [a];
    }
  }
}
