/** The map of logical cores (pktgen/lib/cli/cli_cmap.c, pktgen/lib/cli/cli_cmap.h).

    /proc/cpuinfo is read line by line into a list of records, newest first.  Socket and core ids are
    then compressed to ranks and the records are looked up by (socket, core, thread). */
module CoreMaps {
  import opened Arith

  datatype Lcore = Lcore(lid: Octet, sid: Octet, cid: Octet, tid: Octet)

  /** The property a getter and setter pair stands for. */
  datatype Property = Socket | Core | Thread

  function Get(lc: Lcore, p: Property): Octet {
    match p
    case Socket => lc.sid
    case Core => lc.cid
    case Thread => lc.tid
  }

  function Set(lc: Lcore, p: Property, v: Octet): (r: Lcore)
    ensures Get(r, p) == v && r.lid == lc.lid && forall q :: q != p ==> Get(r, q) == Get(lc, q)
  {
    match p
    case Socket => lc.(sid := v)
    case Core => lc.(cid := v)
    case Thread => lc.(tid := v)
  }

  ghost function Values(s: seq<Lcore>, p: Property): set<Octet> {
    set i | 0 <= i < |s| :: Get(s[i], p)
  }

  // ----- ranks -----

  /** How many members of vs are smaller than v. */
  ghost function Rank(vs: set<Octet>, v: nat): (r: nat)
    ensures r <= v
  {
    if v == 0 then 0 else Rank(vs, v - 1) + if v - 1 in vs then 1 else 0
  }

  lemma {:induction false} RankCounts(vs: set<Octet>, v: nat)
    ensures Rank(vs, v) == |set x | x in vs && x < v|
  {
    var below := set x | x in vs && x < v;
    if v == 0 {
      assert below == {};
    } else {
      RankCounts(vs, v - 1);
      var less := set x | x in vs && x < v - 1;
      assert below == if v - 1 in vs then less + {v - 1} else less;
    }
  }

  lemma {:induction false} RankGrows(vs: set<Octet>, a: nat, b: nat)
    requires a < b
    ensures Rank(vs, a) <= Rank(vs, b) && (a in vs ==> Rank(vs, a) < Rank(vs, b))
    decreases b - a
  {
    if a + 1 < b {
      RankGrows(vs, a, b - 1);
    }
  }

  /** Ranks have no gaps. */
  lemma {:induction false} AtRank(vs: set<Octet>, n: nat, k: nat) returns (x: Octet)
    requires k < Rank(vs, n)
    ensures x in vs && x < n && Rank(vs, x) == k
  {
    if n - 1 in vs && Rank(vs, n - 1) == k {
      x := n - 1;
    } else {
      x := AtRank(vs, n - 1, k);
    }
  }

  lemma NumberOfValues(vs: set<Octet>)
    ensures Rank(vs, 256) == |vs|
  {
    RankCounts(vs, 256);
    assert (set x | x in vs && x < 256) == vs;
  }

  /** t is s with property p replaced, in every record, by the number of smaller values p has in s. */
  ghost predicate ZeroBased(s: seq<Lcore>, t: seq<Lcore>, p: Property) {
    |t| == |s| && forall i :: 0 <= i < |s| ==> t[i] == Set(s[i], p, Rank(Values(s, p), Get(s[i], p)))
  }

  /** Replacing values by ranks keeps their order and tells them apart exactly as before, and leaves no
      gaps: the values become 0, 1, ... up to the number of distinct ones. */
  lemma ZeroBasedIsDense(s: seq<Lcore>, t: seq<Lcore>, p: Property)
    requires ZeroBased(s, t, p)
    ensures forall i, j :: 0 <= i < |s| && 0 <= j < |s| ==>
      (Get(s[i], p) < Get(s[j], p) <==> Get(t[i], p) < Get(t[j], p))
    ensures forall r: Octet :: r in Values(t, p) <==> r < |Values(s, p)|
  {
    var vs := Values(s, p);
    forall i, j | 0 <= i < |s| && 0 <= j < |s|
      ensures Get(s[i], p) < Get(s[j], p) <==> Get(t[i], p) < Get(t[j], p)
    {
      SameOrder(vs, Get(s[i], p), Get(s[j], p));
    }
    NumberOfValues(vs);
    forall r: Octet
      ensures r in Values(t, p) <==> r < |vs|
    {
      if r in Values(t, p) {
        var i :| 0 <= i < |t| && Get(t[i], p) == r;
        RankGrows(vs, Get(s[i], p), 256);
      }
      if r < |vs| {
        var x := AtRank(vs, 256, r);
        var i :| 0 <= i < |s| && Get(s[i], p) == x;
        assert Get(t[i], p) == r;
      }
    }
  }

  lemma SameOrder(vs: set<Octet>, a: Octet, b: Octet)
    requires a in vs && b in vs
    ensures a < b <==> Rank(vs, a) < Rank(vs, b)
  {
    if a < b {
      RankGrows(vs, a, b);
    } else if b < a {
      RankGrows(vs, b, a);
    }
  }

  // ----- reading /proc/cpuinfo -----

  /** A line, by the action it selects; Other stands for the model name and all lines ignored. */
  datatype Line = Processor(n: nat) | PhysicalId(n: nat) | CoreId(n: nat) | Blank | Other

  /** get_next_thread_id: one more than the thread id of the newest record of that core. */
  function NextThreadId(s: seq<Lcore>, sid: Octet, cid: Octet): nat {
    if s == [] then 0
    else if s[0].sid == sid && s[0].cid == cid then s[0].tid + 1
    else NextThreadId(s[1..], sid, cid)
  }

  /** All lines but `processor` write to the newest record, so there has to be one. */
  predicate Readable(s: seq<Lcore>, line: Line) {
    line.Processor? || line.Other? || s != []
  }

  function Act(s: seq<Lcore>, line: Line): seq<Lcore>
    requires Readable(s, line)
  {
    match line
    case Processor(n) => [Lcore(n % 256, 0, 0, 0)] + s
    case PhysicalId(n) => s[0 := s[0].(sid := n % 256)]
    case CoreId(n) => s[0 := s[0].(cid := n % 256)]
    case Blank => s[0 := s[0].(tid := NextThreadId(s[1..], s[0].sid, s[0].cid) % 256)]
    case Other => s
  }

  ghost predicate AllReadable(s: seq<Lcore>, lines: seq<Line>)
    decreases |lines|
  {
    lines == [] || (Readable(s, lines[0]) && AllReadable(Act(s, lines[0]), lines[1..]))
  }

  ghost function Read(s: seq<Lcore>, lines: seq<Line>): seq<Lcore>
    requires AllReadable(s, lines)
    decreases |lines|
  {
    if lines == [] then s else Read(Act(s, lines[0]), lines[1..])
  }

  // ----- what a well-formed file leads to -----

  /** The lines about one logical core, between its `processor` line and the blank one. */
  datatype Block = Block(n: nat, body: seq<Line>)

  predicate WellFormed(b: Block) {
    forall i :: 0 <= i < |b.body| ==> !b.body[i].Processor? && !b.body[i].Blank?
  }

  function Lines(b: Block): seq<Line> {
    [Processor(b.n)] + b.body + [Blank]
  }

  function AllLines(bs: seq<Block>): seq<Line> {
    if bs == [] then [] else Lines(bs[0]) + AllLines(bs[1..])
  }

  /** The ids a block states: the last one of each kind, truncated to a byte, or 0. */
  function SocketOf(body: seq<Line>): Octet {
    if body == [] then 0
    else if body[|body| - 1].PhysicalId? then body[|body| - 1].n % 256
    else SocketOf(body[..|body| - 1])
  }

  function CoreOf(body: seq<Line>): Octet {
    if body == [] then 0
    else if body[|body| - 1].CoreId? then body[|body| - 1].n % 256
    else CoreOf(body[..|body| - 1])
  }

  /** How many records of s lie on that core. */
  function SameCore(s: seq<Lcore>, sid: Octet, cid: Octet): (n: nat)
    ensures n <= |s|
  {
    if s == [] then 0 else (if s[0].sid == sid && s[0].cid == cid then 1 else 0) + SameCore(s[1..], sid, cid)
  }

  /** How many of the first k blocks are about the same core as block k. */
  function Earlier(bs: seq<Block>, k: nat): nat
    requires k < |bs|
  {
    EarlierFrom(bs, k, SocketOf(bs[k].body), CoreOf(bs[k].body))
  }

  function EarlierFrom(bs: seq<Block>, k: nat, sid: Octet, cid: Octet): nat
    requires k <= |bs|
  {
    if k == 0 then 0
    else
      var same := SocketOf(bs[k - 1].body) == sid && CoreOf(bs[k - 1].body) == cid;
      (if same then 1 else 0) + EarlierFrom(bs, k - 1, sid, cid)
  }

  /** Each record's thread id is the number of older records of the same core. */
  ghost predicate Numbered(s: seq<Lcore>) {
    forall i :: 0 <= i < |s| ==> s[i].tid == SameCore(s[i + 1..], s[i].sid, s[i].cid)
  }

  lemma {:induction false} NextIsCount(s: seq<Lcore>, sid: Octet, cid: Octet)
    requires Numbered(s)
    ensures NextThreadId(s, sid, cid) == SameCore(s, sid, cid)
  {
    if s != [] && !(s[0].sid == sid && s[0].cid == cid) {
      TailNumbered(s);
      NextIsCount(s[1..], sid, cid);
    }
  }

  lemma TailNumbered(s: seq<Lcore>)
    requires Numbered(s) && s != []
    ensures Numbered(s[1..])
  {
    forall i | 0 <= i < |s| - 1 ensures s[1..][i].tid == SameCore(s[1..][i + 1..], s[1..][i].sid, s[1..][i].cid) {
      assert s[1..][i] == s[i + 1] && s[1..][i + 1..] == s[i + 1 + 1..];
    }
  }

  lemma HeadNumbered(s: seq<Lcore>, lc: Lcore)
    requires Numbered(s) && lc.tid == SameCore(s, lc.sid, lc.cid)
    ensures Numbered([lc] + s)
  {
    var t := [lc] + s;
    forall i | 0 <= i < |t| ensures t[i].tid == SameCore(t[i + 1..], t[i].sid, t[i].cid) {
      assert t[i + 1..] == s[i..];
      assert i > 0 ==> t[i] == s[i - 1];
    }
  }

  lemma {:induction false} ReadAppend(s: seq<Lcore>, a: seq<Line>, b: seq<Line>)
    requires AllReadable(s, a) && AllReadable(Read(s, a), b)
    ensures AllReadable(s, a + b) && Read(s, a + b) == Read(Read(s, a), b)
    decreases |a|
  {
    hide Act, Readable;
    if a == [] {
      assert a + b == b;
    } else {
      assert (a + b)[0] == a[0] && (a + b)[1..] == a[1..] + b;
      ReadAppend(Act(s, a[0]), a[1..], b);
    }
  }

  /** The body of a block fills in the newest record. */
  lemma {:induction false} BodyRead(s: seq<Lcore>, lid: Octet, b: Block, k: nat)
    requires WellFormed(b) && k <= |b.body|
    ensures var t := [Lcore(lid, 0, 0, 0)] + s;
      AllReadable(t, b.body[..k]) &&
      Read(t, b.body[..k]) == [Lcore(lid, SocketOf(b.body[..k]), CoreOf(b.body[..k]), 0)] + s
  {
    var t := [Lcore(lid, 0, 0, 0)] + s;
    if k > 0 {
      BodyRead(s, lid, b, k - 1);
      var u := Read(t, b.body[..k - 1]);
      OneLine(u, b.body[k - 1]);
      ReadAppend(t, b.body[..k - 1], [b.body[k - 1]]);
      assert b.body[..k] == b.body[..k - 1] + [b.body[k - 1]];
      assert b.body[..k][..k - 1] == b.body[..k - 1];
    }
  }

  lemma OneLine(s: seq<Lcore>, line: Line)
    requires Readable(s, line)
    ensures AllReadable(s, [line]) && Read(s, [line]) == Act(s, line)
  {
    assert [line][1..] == [];
    assert AllReadable(Act(s, line), []) && Read(Act(s, line), []) == Act(s, line);
  }

  /** The record a block adds to the list s. */
  function RecordOf(s: seq<Lcore>, b: Block): Lcore
    requires |s| < 256
  {
    var sid, cid := SocketOf(b.body), CoreOf(b.body);
    Lcore(b.n % 256, sid, cid, SameCore(s, sid, cid))
  }

  lemma {:induction false} BlockRead(s: seq<Lcore>, b: Block)
    requires WellFormed(b) && Numbered(s) && |s| < 256
    ensures AllReadable(s, Lines(b)) && Read(s, Lines(b)) == [RecordOf(s, b)] + s
    ensures Numbered([RecordOf(s, b)] + s)
  {
    var t := [Lcore(b.n % 256, 0, 0, 0)] + s;
    OneLine(s, Processor(b.n));
    BodyRead(s, b.n % 256, b, |b.body|);
    assert b.body[..|b.body|] == b.body;
    ReadAppend(s, [Processor(b.n)], b.body);
    var u := Read(t, b.body);
    assert u[1..] == s;
    NextIsCount(s, u[0].sid, u[0].cid);
    OneLine(u, Blank);
    ReadAppend(s, [Processor(b.n)] + b.body, [Blank]);
    assert Act(u, Blank) == [RecordOf(s, b)] + s;
    HeadNumbered(s, RecordOf(s, b));
  }

  /** The record of block k once all blocks are read, thread ids not wrapping for up to 256 of them. */
  ghost predicate Describes(lc: Lcore, bs: seq<Block>, k: nat)
    requires k < |bs|
  {
    lc.lid == bs[k].n % 256 && lc.sid == SocketOf(bs[k].body) && lc.cid == CoreOf(bs[k].body) &&
    lc.tid == Earlier(bs, k)
  }

  /** s holds the records of the first n blocks, newest first. */
  ghost predicate HoldsFirst(s: seq<Lcore>, bs: seq<Block>, n: nat) {
    |s| == n <= |bs| && forall i :: 0 <= i < n ==> Describes(s[i], bs, n - 1 - i)
  }

  lemma {:induction false} SameAsEarlier(s: seq<Lcore>, bs: seq<Block>, n: nat, sid: Octet, cid: Octet)
    requires HoldsFirst(s, bs, n)
    ensures SameCore(s, sid, cid) == EarlierFrom(bs, n, sid, cid)
    decreases n
  {
    if n > 0 {
      assert Describes(s[0], bs, n - 1);
      forall i | 0 <= i < n - 1 ensures Describes(s[1..][i], bs, n - 1 - 1 - i) {
        assert s[1..][i] == s[i + 1];
      }
      SameAsEarlier(s[1..], bs, n - 1, sid, cid);
    }
  }

  lemma NextHeld(s: seq<Lcore>, bs: seq<Block>, n: nat)
    requires HoldsFirst(s, bs, n) && n < |bs| <= 256
    ensures HoldsFirst([RecordOf(s, bs[n])] + s, bs, n + 1)
  {
    SameAsEarlier(s, bs, n, SocketOf(bs[n].body), CoreOf(bs[n].body));
    var t := [RecordOf(s, bs[n])] + s;
    forall i | 0 <= i < n + 1 ensures Describes(t[i], bs, n + 1 - 1 - i) {
      assert i > 0 ==> t[i] == s[i - 1];
    }
  }

  lemma {:induction false} BlocksRead(s: seq<Lcore>, bs: seq<Block>, n: nat)
    requires forall k :: 0 <= k < |bs| ==> WellFormed(bs[k])
    requires |bs| <= 256 && HoldsFirst(s, bs, n) && Numbered(s)
    ensures AllReadable(s, AllLines(bs[n..]))
    ensures var t := Read(s, AllLines(bs[n..])); HoldsFirst(t, bs, |bs|) && Numbered(t)
    decreases |bs| - n
  {
    if n < |bs| {
      var b := bs[n];
      BlockRead(s, b);
      var t := [RecordOf(s, b)] + s;
      NextHeld(s, bs, n);
      BlocksRead(t, bs, n + 1);
      assert bs[n..][0] == b && bs[n..][1..] == bs[n + 1..];
      ReadAppend(s, Lines(b), AllLines(bs[n + 1..]));
    }
  }

  // ----- triples -----

  ghost predicate SameTriple(a: Lcore, b: Lcore) {
    a.sid == b.sid && a.cid == b.cid && a.tid == b.tid
  }

  ghost predicate UniqueTriples(s: seq<Lcore>) {
    forall i, j :: 0 <= i < j < |s| ==> !SameTriple(s[i], s[j])
  }

  lemma {:induction false} SameCoreBehind(s: seq<Lcore>, j: nat)
    requires j < |s|
    ensures SameCore(s, s[j].sid, s[j].cid) > SameCore(s[j + 1..], s[j].sid, s[j].cid)
  {
    if j > 0 {
      SameCoreBehind(s[1..], j - 1);
      assert s[1..][j - 1 + 1..] == s[j + 1..];
    }
  }

  lemma SameCoreFurtherBehind(s: seq<Lcore>, i: nat, j: nat)
    requires i < j < |s|
    ensures SameCore(s[i + 1..], s[j].sid, s[j].cid) > SameCore(s[j + 1..], s[j].sid, s[j].cid)
  {
    SameCoreBehind(s[i + 1..], j - i - 1);
    assert s[i + 1..][j - i - 1] == s[j] && s[i + 1..][j - i - 1 + 1..] == s[j + 1..];
  }

  lemma NumberedIsUnique(s: seq<Lcore>)
    requires Numbered(s)
    ensures UniqueTriples(s)
  {
    forall i, j | 0 <= i < j < |s| ensures !SameTriple(s[i], s[j]) {
      if SameTriple(s[i], s[j]) {
        SameCoreFurtherBehind(s, i, j);
      }
    }
  }

  /** Compressing socket or core ids keeps thread ids counting the older records of the same core. */
  lemma ZeroBasedKeepsNumbers(s: seq<Lcore>, t: seq<Lcore>, p: Property)
    requires Numbered(s) && ZeroBased(s, t, p) && p != Thread
    ensures Numbered(t)
  {
    forall i | 0 <= i < |t| ensures t[i].tid == SameCore(t[i + 1..], t[i].sid, t[i].cid) {
      SameCoreKept(s, t, p, i, i + 1);
    }
  }

  lemma {:induction false} SameCoreKept(s: seq<Lcore>, t: seq<Lcore>, p: Property, i: nat, k: nat)
    requires ZeroBased(s, t, p) && p != Thread && i < |s| && k <= |s|
    ensures SameCore(t[k..], t[i].sid, t[i].cid) == SameCore(s[k..], s[i].sid, s[i].cid)
    decreases |s| - k
  {
    if k < |s| {
      SameCoreKept(s, t, p, i, k + 1);
      assert s[k..][1..] == s[k + 1..] && t[k..][1..] == t[k + 1..];
      SameOrder(Values(s, p), Get(s[i], p), Get(s[k], p));
      SameOrder(Values(s, p), Get(s[k], p), Get(s[i], p));
    }
  }

  /** On every core the thread ids run from 0 without gaps. */
  lemma ThreadsAreDense(s: seq<Lcore>, i: nat, t: nat) returns (j: nat)
    requires Numbered(s) && i < |s| && t < s[i].tid
    ensures i < j < |s| && s[j].sid == s[i].sid && s[j].cid == s[i].cid && s[j].tid == t
  {
    j := AtCount(s, i + 1, s[i].sid, s[i].cid, t);
  }

  lemma {:induction false} AtCount(s: seq<Lcore>, k: nat, sid: Octet, cid: Octet, t: nat) returns (j: nat)
    requires Numbered(s) && k <= |s| && t < SameCore(s[k..], sid, cid)
    ensures k <= j < |s| && s[j].sid == sid && s[j].cid == cid && s[j].tid == t
    decreases |s| - k
  {
    assert s[k..][1..] == s[k + 1..];
    if t < SameCore(s[k + 1..], sid, cid) {
      j := AtCount(s, k + 1, sid, cid, t);
    } else {
      j := k;
    }
  }

  /** What sct answers: the lcore of the first record with the triple, or 0. */
  function FirstMatch(s: seq<Lcore>, sid: Octet, cid: Octet, tid: Octet): Octet {
    if s == [] then 0
    else if s[0].sid == sid && s[0].cid == cid && s[0].tid == tid then s[0].lid
    else FirstMatch(s[1..], sid, cid, tid)
  }

  ghost predicate HasTriple(s: seq<Lcore>, sid: Octet, cid: Octet, tid: Octet) {
    exists i :: 0 <= i < |s| && s[i].sid == sid && s[i].cid == cid && s[i].tid == tid
  }

  /** Round k of the loop of sct, whose index counts in 8 bits while its pointer does not, goes on: the
      index is below the number of records, and the pointer is behind the table or on a record that does
      not match. */
  predicate GoesOn(s: seq<Lcore>, sid: Octet, cid: Octet, tid: Octet, k: nat) {
    k % 256 < |s| && !(k < |s| && s[k].sid == sid && s[k].cid == cid && s[k].tid == tid)
  }

  /** The loop ends without reading behind the table of 256 records, exactly when not all records are in
      use or one of them matches. */
  lemma SctEndsIff(s: seq<Lcore>, sid: Octet, cid: Octet, tid: Octet)
    requires |s| <= 256
    ensures (exists k :: 0 <= k <= 256 && !GoesOn(s, sid, cid, tid, k)) <==> |s| < 256 || HasTriple(s, sid, cid, tid)
  {
    if |s| < 256 {
      assert !GoesOn(s, sid, cid, tid, |s|);
    }
    if i :| 0 <= i < |s| && s[i].sid == sid && s[i].cid == cid && s[i].tid == tid {
      assert !GoesOn(s, sid, cid, tid, i);
    }
  }

  lemma StillHasTriple(s: seq<Lcore>, sid: Octet, cid: Octet, tid: Octet)
    requires s != [] && !(s[0].sid == sid && s[0].cid == cid && s[0].tid == tid)
    ensures HasTriple(s, sid, cid, tid) ==> |s| > 1 && HasTriple(s[1..], sid, cid, tid)
  {
    if i :| 0 <= i < |s| && s[i].sid == sid && s[i].cid == cid && s[i].tid == tid {
      assert s[1..][i - 1] == s[i];
    }
  }

  lemma {:induction false} UniqueMatch(s: seq<Lcore>, i: nat)
    requires UniqueTriples(s) && i < |s|
    ensures FirstMatch(s, s[i].sid, s[i].cid, s[i].tid) == s[i].lid
  {
    if i > 0 {
      assert !SameTriple(s[0], s[i]);
      assert UniqueTriples(s[1..]) by {
        forall a, b | 0 <= a < b < |s| - 1 ensures !SameTriple(s[1..][a], s[1..][b]) {
          assert s[1..][a] == s[a + 1] && s[1..][b] == s[b + 1];
        }
      }
      UniqueMatch(s[1..], i - 1);
    }
  }

  // ----- the whole file -----

  ghost function Sockets(bs: seq<Block>): set<Octet> {
    set k | 0 <= k < |bs| :: SocketOf(bs[k].body)
  }

  ghost function Cores(bs: seq<Block>): set<Octet> {
    set k | 0 <= k < |bs| :: CoreOf(bs[k].body)
  }

  lemma ValuesStated(s: seq<Lcore>, bs: seq<Block>)
    requires HoldsFirst(s, bs, |bs|)
    ensures Values(s, Socket) == Sockets(bs) && Values(s, Core) == Cores(bs)
  {
    forall k | 0 <= k < |bs|
      ensures SocketOf(bs[k].body) in Values(s, Socket) && CoreOf(bs[k].body) in Values(s, Core)
    {
      var i := |bs| - 1 - k;
      assert Describes(s[i], bs, k) && Get(s[i], Socket) == s[i].sid && Get(s[i], Core) == s[i].cid;
    }
    forall i | 0 <= i < |s| ensures Get(s[i], Socket) in Sockets(bs) && Get(s[i], Core) in Cores(bs) {
      assert Describes(s[i], bs, |bs| - 1 - i);
    }
  }

  /** From the file to the lookup.  s is the list read, t the list after both compressions.  All triples
      differ; looking up, for any block, the rank of its socket id, the rank of its core id and the
      number of earlier blocks about the same core gives that block's lcore; and the socket and core ids
      left in t are exactly those below the numbers of distinct ids in the file. */
  lemma LookupFindsLcore(bs: seq<Block>, s: seq<Lcore>, mid: seq<Lcore>, t: seq<Lcore>, k: nat)
    requires forall k :: 0 <= k < |bs| ==> WellFormed(bs[k])
    requires k < |bs| <= 256 && AllReadable([], AllLines(bs)) && s == Read([], AllLines(bs))
    requires ZeroBased(s, mid, Socket) && ZeroBased(mid, t, Core)
    ensures UniqueTriples(t)
    ensures Earlier(bs, k) < 256
    ensures var sid, cid := Rank(Sockets(bs), SocketOf(bs[k].body)), Rank(Cores(bs), CoreOf(bs[k].body));
      FirstMatch(t, sid, cid, Earlier(bs, k)) == bs[k].n % 256
  {
    hide AllReadable, Read, AllLines, Numbered, UniqueTriples, FirstMatch, SocketOf, CoreOf, Rank;
    assert bs[0..] == bs;
    BlocksRead([], bs, 0);
    ZeroBasedKeepsNumbers(s, mid, Socket);
    ZeroBasedKeepsNumbers(mid, t, Core);
    NumberedIsUnique(t);
    ValuesStated(s, bs);
    assert Values(mid, Core) == Cores(bs) by {
      OtherColumn(s, mid);
    }
    var i := |bs| - 1 - k;
    assert Describes(s[i], bs, k);
    UniqueMatch(t, i);
  }

  lemma OtherColumn(s: seq<Lcore>, mid: seq<Lcore>)
    requires ZeroBased(s, mid, Socket)
    ensures Values(mid, Core) == Values(s, Core)
  {
    forall i | 0 <= i < |s| ensures Get(mid[i], Core) == Get(s[i], Core) {
    }
    forall v: Octet ensures v in Values(mid, Core) <==> v in Values(s, Core) {
      if v in Values(mid, Core) {
        var i :| 0 <= i < |mid| && Get(mid[i], Core) == v;
        assert Get(s[i], Core) == v;
      }
      if v in Values(s, Core) {
        var i :| 0 <= i < |s| && Get(s[i], Core) == v;
        assert Get(mid[i], Core) == v;
      }
    }
  }

  // ----- compressing in place -----

  /** r is the first record with the smallest value of p that is at least v among the first n, or |s| if
      there is none. */
  ghost predicate IsClosest(s: seq<Lcore>, n: nat, r: nat, v: nat, p: Property)
    requires n <= |s|
  {
    if r == |s| then forall j :: 0 <= j < n ==> Get(s[j], p) < v
    else (
      r < n && Get(s[r], p) >= v &&
      (forall j :: 0 <= j < n && Get(s[j], p) >= v ==> Get(s[r], p) <= Get(s[j], p)) &&
      forall j :: 0 <= j < r && Get(s[j], p) >= v ==> Get(s[r], p) < Get(s[j], p))
  }

  /** closest_gte from position i of the list on, with sel selected so far and |s| for NULL. */
  function ClosestGte(s: seq<Lcore>, i: nat, sel: nat, v: nat, p: Property): (r: nat)
    requires i <= |s| && IsClosest(s, i, sel, v, p)
    ensures IsClosest(s, |s|, r, v, p)
    decreases |s| - i
  {
    if i == |s| then sel
    else if Get(s[i], p) >= v && (sel == |s| || Get(s[sel], p) - v > Get(s[i], p) - v) then
      ClosestGte(s, i + 1, i, v, p)
    else ClosestGte(s, i + 1, sel, v, p)
  }

  /** k rounds of zero_base have turned s into t: values with ranks below k are replaced. */
  ghost predicate PartlyZeroBased(s: seq<Lcore>, t: seq<Lcore>, p: Property, k: nat) {
    |t| == |s| && forall i :: 0 <= i < |s| ==>
      var r := Rank(Values(s, p), Get(s[i], p));
      t[i] == if r < k then Set(s[i], p, r) else s[i]
  }

  /** Everything from position i on with value v of p has it replaced by w. */
  ghost predicate Remapped(s: seq<Lcore>, t: seq<Lcore>, i: nat, v: Octet, w: Octet, p: Property) {
    |t| == |s| && forall j :: 0 <= j < |s| ==>
      t[j] == if j >= i && Get(s[j], p) == v then Set(s[j], p, w) else s[j]
  }

  /** The value selected in round k is the one of rank k. */
  lemma ClosestHasRank(s: seq<Lcore>, t: seq<Lcore>, p: Property, k: nat, r: nat)
    requires PartlyZeroBased(s, t, p, k) && IsClosest(t, |t|, r, k, p) && r < |t|
    ensures k < |Values(s, p)| && Get(t[r], p) == Get(s[r], p) && Rank(Values(s, p), Get(s[r], p)) == k
  {
    var vs := Values(s, p);
    var v := Get(s[r], p);
    NumberOfValues(vs);
    RankGrows(vs, v, 256);
    if Rank(vs, v) > k {
      var x := AtRank(vs, 256, k);
      var j :| 0 <= j < |s| && Get(s[j], p) == x;
      assert Get(t[j], p) == x >= k;
      SameOrder(vs, x, v);
    }
  }

  lemma StillLeft(s: seq<Lcore>, t: seq<Lcore>, p: Property, k: nat) returns (j: nat)
    requires PartlyZeroBased(s, t, p, k) && k < |Values(s, p)|
    ensures j < |t| && Get(t[j], p) >= k
  {
    NumberOfValues(Values(s, p));
    var x := AtRank(Values(s, p), 256, k);
    j :| 0 <= j < |s| && Get(s[j], p) == x;
  }

  lemma NoneLeft(s: seq<Lcore>, t: seq<Lcore>, p: Property, k: nat)
    requires PartlyZeroBased(s, t, p, k) && IsClosest(t, |t|, |t|, k, p) && k <= |Values(s, p)|
    ensures k == |Values(s, p)| && ZeroBased(s, t, p)
  {
    var vs := Values(s, p);
    NumberOfValues(vs);
    if k < |vs| {
      var j := StillLeft(s, t, p, k);
      assert false;
    }
    forall i | 0 <= i < |s| ensures Rank(vs, Get(s[i], p)) < k {
      RankGrows(vs, Get(s[i], p), 256);
    }
  }

  lemma OneMoreRound(s: seq<Lcore>, t: seq<Lcore>, u: seq<Lcore>, p: Property, k: nat, r: nat)
    requires k < 256 && PartlyZeroBased(s, t, p, k) && IsClosest(t, |t|, r, k, p) && r < |t|
    requires Remapped(t, u, r, Get(t[r], p), k, p)
    ensures PartlyZeroBased(s, u, p, k + 1)
  {
    ClosestHasRank(s, t, p, k, r);
    var vs, v := Values(s, p), Get(s[r], p);
    forall i | 0 <= i < |s|
      ensures u[i] == if Rank(vs, Get(s[i], p)) < k + 1 then Set(s[i], p, Rank(vs, Get(s[i], p))) else s[i]
    {
      SameOrder(vs, Get(s[i], p), v);
      SameOrder(vs, v, Get(s[i], p));
    }
  }

  lemma SocketsKept(mid: seq<Lcore>, t: seq<Lcore>)
    requires ZeroBased(mid, t, Core)
    ensures |t| == |mid| && forall i :: 0 <= i < |t| ==> Get(t[i], Socket) == Get(mid[i], Socket)
  {
  }

  /** cnt is what cmap_cnt computes: one more than the largest value, and 1 for an empty list. */
  ghost predicate IsCount(s: seq<Lcore>, p: Property, cnt: nat) {
    (forall i :: 0 <= i < |s| ==> Get(s[i], p) < cnt) &&
    (cnt == 1 || (cnt > 1 && exists i :: 0 <= i < |s| && Get(s[i], p) == cnt - 1))
  }

  /** After compression the count is the number of distinct ids there were, if and only if there is any
      record.  (u is t, possibly with other properties changed since.) */
  lemma CountIsDistinct(s: seq<Lcore>, t: seq<Lcore>, u: seq<Lcore>, p: Property, cnt: nat)
    requires ZeroBased(s, t, p) && IsCount(u, p, cnt)
    requires |u| == |t| && forall i :: 0 <= i < |t| ==> Get(u[i], p) == Get(t[i], p)
    ensures cnt == |Values(s, p)| <==> s != []
  {
    var vs := Values(s, p);
    if s == [] {
      assert vs == {};
    } else {
      NumberOfValues(vs);
      assert Get(s[0], p) in vs;
      RankGrows(vs, Get(s[0], p), 256);
      var x := AtRank(vs, 256, |vs| - 1);
      var j :| 0 <= j < |s| && Get(s[j], p) == x;
      assert Get(t[j], p) == |vs| - 1 == Get(u[j], p);
      if cnt > 1 {
        var i :| 0 <= i < |u| && Get(u[i], p) == cnt - 1;
        assert Get(u[i], p) == Get(t[i], p);
        RankGrows(vs, Get(s[i], p), 256);
      }
    }
  }

  class Cmap {
    var lcores: seq<Lcore>       // the list, newest record first
    const linfo: array<Lcore>
    var numCores: nat
    var sidCnt: nat
    var cidCnt: nat
    var tidCnt: nat

    constructor ()
      ensures lcores == [] && fresh(linfo) && linfo.Length == 256
    {
      lcores := [];
      linfo := new Lcore[256](_ => Lcore(0, 0, 0, 0));
    }

    /** remap, from position i of the list on. */
    method Remap(i: nat, from: Octet, to: Octet, p: Property)
      requires i <= |lcores|
      modifies `lcores
      ensures Remapped(old(lcores), lcores, i, from, to, p)
      decreases |lcores| - i
    {
      if i < |lcores| {
        if Get(lcores[i], p) == from {
          lcores := lcores[i := Set(lcores[i], p, to)];
        }
        Remap(i + 1, from, to, p);
      }
    }

    /** zero_base: one round for each distinct value. */
    method ZeroBase(p: Property) returns (ghost rounds: nat)
      modifies `lcores
      ensures ZeroBased(old(lcores), lcores, p) && rounds == |Values(old(lcores), p)|
    {
      ghost var was := lcores;
      var id: nat := 0;
      NumberOfValues(Values(was, p));
      var lc := ClosestGte(lcores, 0, |lcores|, id, p);
      while lc != |lcores|
        invariant id <= |Values(was, p)| <= 256 && PartlyZeroBased(was, lcores, p, id)
        invariant IsClosest(lcores, |lcores|, lc, id, p)
        decreases |Values(was, p)| - id
      {
        ClosestHasRank(was, lcores, p, id, lc);
        ghost var before := lcores;
        Remap(lc, Get(lcores[lc], p), id, p);
        OneMoreRound(was, before, lcores, p, id, lc);
        id := id + 1;
        lc := ClosestGte(lcores, 0, |lcores|, id, p);
      }
      NoneLeft(was, lcores, p, id);
      rounds := id;
    }

    /** cmap_cnt: one more than the largest value. */
    method Count(p: Property) returns (cnt: nat)
      ensures IsCount(lcores, p, cnt)
    {
      cnt := 0;
      var n := 0;
      while n < |lcores|
        invariant n <= |lcores| && forall i :: 0 <= i < n ==> Get(lcores[i], p) <= cnt
        invariant cnt == 0 || exists i :: 0 <= i < n && Get(lcores[i], p) == cnt
      {
        if cnt < Get(lcores[n], p) {
          cnt := Get(lcores[n], p);
        }
        n := n + 1;
      }
      cnt := cnt + 1;
    }

    /** get_and_free_lcore_info, from position i of the list on. */
    method CopyInfo(i: nat)
      requires i <= |lcores| <= linfo.Length
      modifies linfo
      ensures forall j :: 0 <= j < linfo.Length ==> linfo[j] == if i <= j < |lcores| then lcores[j] else old(linfo[j])
      decreases |lcores| - i
    {
      if i < |lcores| {
        CopyInfo(i + 1);
        linfo[i] := lcores[i];
      }
    }

    method ReadLines(lines: seq<Line>)
      requires AllReadable(lcores, lines)
      modifies `lcores
      ensures lcores == Read(old(lcores), lines)
    {
      ghost var was := lcores;
      var i := 0;
      assert lines[0..] == lines;
      while i < |lines|
        invariant i <= |lines| && AllReadable(lcores, lines[i..]) && Read(lcores, lines[i..]) == Read(was, lines)
      {
        assert lines[i..][0] == lines[i] && lines[i..][1..] == lines[i + 1..];
        lcores := Act(lcores, lines[i]);
        i := i + 1;
      }
    }

    /** cmap_create for a file of at most 256 records.  Only an empty file makes a count differ from the
        number of distinct ids. */
    method Create(lines: seq<Line>) returns (ghost mid: seq<Lcore>)
      requires lcores == [] && linfo.Length == 256 && AllReadable([], lines) && |Read([], lines)| <= 256
      modifies this, linfo
      ensures numCores == |Read([], lines)| <= linfo.Length
      ensures ZeroBased(Read([], lines), mid, Socket) && ZeroBased(mid, linfo[..numCores], Core)
      ensures sidCnt == |Values(Read([], lines), Socket)| <==> numCores > 0
      ensures cidCnt == |Values(mid, Core)| <==> numCores > 0
      ensures IsCount(linfo[..numCores], Thread, tidCnt)
    {
      hide Read, AllReadable, Act, ZeroBased, IsCount, Rank, Values;
      ReadLines(lines);
      ghost var s := lcores;
      ghost var _ := ZeroBase(Socket);
      mid := lcores;
      ghost var _ := ZeroBase(Core);
      numCores := |lcores|;
      sidCnt := Count(Socket);
      cidCnt := Count(Core);
      tidCnt := Count(Thread);
      SocketsKept(mid, lcores);
      CountIsDistinct(s, mid, lcores, Socket, sidCnt);
      CountIsDistinct(mid, lcores, lcores, Core, cidCnt);
      CopyInfo(0);
      assert linfo[..numCores] == lcores;
    }

    /** sct.  The loop index has 8 bits, so with all 256 records in use the loop ends within the table
        only if one matches (SctEndsIff). */
    method Sct(s: Octet, c: Octet, t: Octet) returns (lid: Octet)
      requires numCores <= 256 == linfo.Length && (numCores < 256 || HasTriple(linfo[..numCores], s, c, t))
      ensures lid == FirstMatch(linfo[..numCores], s, c, t)
    {
      var i: Octet, lc := 0, 0;
      while i < numCores
        invariant lc == i <= numCores
        invariant FirstMatch(linfo[..numCores], s, c, t) == FirstMatch(linfo[lc..numCores], s, c, t)
        invariant numCores < 256 || HasTriple(linfo[lc..numCores], s, c, t)
        decreases numCores - lc
      {
        assert linfo[lc..numCores][1..] == linfo[lc + 1..numCores];
        if linfo[lc].sid == s && linfo[lc].cid == c && linfo[lc].tid == t {
          return linfo[lc].lid;
        }
        StillHasTriple(linfo[lc..numCores], s, c, t);
        i, lc := (i + 1) % 256, lc + 1;
      }
      lid := 0;
    }
  }
}
