/** Packet capture (pktgen/app/pktgen-capture.c).

    `CaptureBuffers`: length-prefixed records appended to a byte region behind a sentinel, and the
    walk that reads them back.  `CaptureOwners`: which port and lcore owns which socket's region. */
module CaptureBuffers {
  import opened Arith

  const HDR_SIZE: nat := 4  // sizeof(cap_hdr_t): packet length and stored length, 16 bits each

  type Packet = p: seq<Octet> | |p| < 65535

  /** The stored length: rounded up to an even number. */
  function Padded(n: nat): (r: nat)
    ensures r % 2 == 0 && n <= r <= n + 1
    ensures r == n <==> n % 2 == 0
  {
    n + n % 2
  }

  /** The 16-bit field at offset o, in the machine's byte order. */
  function Field(mem: seq<Octet>, o: nat): nat
    requires o + 2 <= |mem|
  {
    var low: nat, high: nat := mem[o], mem[o + 1];
    low + 256 * high
  }

  function RecordSize(p: Packet): (r: nat)
    ensures r % 2 == 0
  {
    HDR_SIZE + Padded(|p|)
  }

  function Size(ps: seq<Packet>): (r: nat)
    ensures r % 2 == 0
  {
    if ps == [] then 0 else RecordSize(ps[0]) + Size(ps[1..])
  }

  /** The record of p starts at offset o. */
  ghost predicate Record(mem: seq<Octet>, o: nat, p: Packet) {
    o + RecordSize(p) <= |mem| &&
    Field(mem, o) == |p| && Field(mem, o + 2) == Padded(|p|) &&
    mem[o + HDR_SIZE..o + HDR_SIZE + |p|] == p
  }

  /** The records of ps stand one behind the other from offset o on. */
  ghost predicate Records(mem: seq<Octet>, o: nat, ps: seq<Packet>)
    decreases |ps|
  {
    ps == [] || (Record(mem, o, ps[0]) && Records(mem, o + RecordSize(ps[0]), ps[1..]))
  }

  lemma {:induction false} SizeAppend(ps: seq<Packet>, p: Packet)
    ensures Size(ps + [p]) == Size(ps) + RecordSize(p)
  {
    if ps == [] {
      assert Size([p]) == RecordSize(p) + Size([p][1..]);
      assert ps + [p] == [p];
    } else {
      assert (ps + [p])[1..] == ps[1..] + [p];
      SizeAppend(ps[1..], p);
    }
  }

  /** Records survive changes behind them, and a new one may follow. */
  lemma {:induction false} RecordsAppend(mem: seq<Octet>, mem': seq<Octet>, o: nat, ps: seq<Packet>, p: Packet)
    requires Records(mem, o, ps)
    requires |mem'| == |mem| && o + Size(ps) <= |mem| && mem'[..o + Size(ps)] == mem[..o + Size(ps)]
    requires Record(mem', o + Size(ps), p)
    ensures Records(mem', o, ps + [p])
    decreases |ps|
  {
    if ps == [] {
      assert ps + [p] == [p] && [p][1..] == [];
    } else {
      RecordSurvives(mem, mem', o, ps[0], o + Size(ps));
      RecordsAppend(mem, mem', o + RecordSize(ps[0]), ps[1..], p);
      assert (ps + [p])[1..] == ps[1..] + [p];
    }
  }

  lemma RecordSurvives(mem: seq<Octet>, mem': seq<Octet>, o: nat, p: Packet, upTo: nat)
    requires Record(mem, o, p) && o + RecordSize(p) <= upTo <= |mem|
    requires |mem'| == |mem| && mem'[..upTo] == mem[..upTo]
    ensures Record(mem', o, p)
  {
    assert forall i :: 0 <= i < upTo ==> mem'[i] == mem'[..upTo][i] == mem[i];
  }

  lemma {:induction false} RecordsSurvive(mem: seq<Octet>, mem': seq<Octet>, o: nat, ps: seq<Packet>)
    requires Records(mem, o, ps)
    requires |mem'| == |mem| && o + Size(ps) <= |mem| && mem'[..o + Size(ps)] == mem[..o + Size(ps)]
    ensures Records(mem', o, ps)
    decreases |ps|
  {
    if ps != [] {
      RecordSurvives(mem, mem', o, ps[0], o + Size(ps));
      RecordsSurvive(mem, mem', o + RecordSize(ps[0]), ps[1..]);
    }
  }

  /** The packets of a bulk that get stored: all up to the first that does not fit. */
  function Accepted(room: nat, ps: seq<Packet>): (a: seq<Packet>)
    ensures a <= ps
  {
    if ps == [] || RecordSize(ps[0]) > room then []
    else [ps[0]] + Accepted(room - RecordSize(ps[0]), ps[1..])
  }

  lemma {:induction false} AcceptedFits(room: nat, ps: seq<Packet>)
    ensures Size(Accepted(room, ps)) <= room
  {
    if ps != [] && RecordSize(ps[0]) <= room {
      AcceptedFits(room - RecordSize(ps[0]), ps[1..]);
      assert Accepted(room, ps)[1..] == Accepted(room - RecordSize(ps[0]), ps[1..]);
    }
  }

  /** With the packets up to index i dealt with and stored behind `before`, the rest of the bulk still
      finds the room it would have found from the start. */
  ghost predicate Midway(before: seq<Packet>, room: nat, pkts: seq<Packet>, stored: seq<Packet>, left: nat, i: nat) {
    i <= |pkts| && before + Accepted(room, pkts) == stored + Accepted(left, pkts[i..])
  }

  lemma MidwayStart(before: seq<Packet>, room: nat, pkts: seq<Packet>)
    ensures Midway(before, room, pkts, before, room, 0)
  {
    assert pkts[0..] == pkts;
  }

  lemma MidwayNext(before: seq<Packet>, room: nat, pkts: seq<Packet>, stored: seq<Packet>, left: nat, i: nat)
    requires i < |pkts| && Midway(before, room, pkts, stored, left, i) && RecordSize(pkts[i]) <= left
    ensures Midway(before, room, pkts, stored + [pkts[i]], left - RecordSize(pkts[i]), i + 1)
  {
    var rest := pkts[i..];
    assert rest[0] == pkts[i] && rest[1..] == pkts[i + 1..];
    assert Accepted(left, rest) == [pkts[i]] + Accepted(left - RecordSize(pkts[i]), pkts[i + 1..]);
  }

  lemma MidwayEnd(before: seq<Packet>, room: nat, pkts: seq<Packet>, stored: seq<Packet>, left: nat, i: nat)
    requires Midway(before, room, pkts, stored, left, i) && (i < |pkts| ==> RecordSize(pkts[i]) > left)
    ensures stored == before + Accepted(room, pkts)
  {
    assert i < |pkts| ==> pkts[i..][0] == pkts[i];
    assert Accepted(left, pkts[i..]) == [];
  }

  lemma Appended(was: seq<Octet>, now: seq<Octet>, ps: seq<Packet>, p: Packet)
    requires Records(was, 0, ps) && |now| == |was| && Size(ps) <= |was| && now[..Size(ps)] == was[..Size(ps)]
    requires Record(now, Size(ps), p)
    ensures Records(now, 0, ps + [p]) && Size(ps + [p]) == Size(ps) + RecordSize(p)
  {
    RecordsAppend(was, now, 0, ps, p);
    SizeAppend(ps, p);
  }

  /** What a walk over stored packets can see: all up to the first empty one, whose length looks like
      the sentinel. */
  function Visible(ps: seq<Packet>): (v: seq<Packet>)
    ensures v <= ps
  {
    if ps == [] || ps[0] == [] then [] else [ps[0]] + Visible(ps[1..])
  }

  /** One packet as handed to the capture file. */
  datatype Dumped = Dumped(len: nat, caplen: nat, bytes: seq<Octet>)

  /** d shows p: its length, its bytes, and one arbitrary byte more if its length is odd. */
  ghost predicate Shows(d: Dumped, p: Packet) {
    d.len == |p| && d.caplen == |d.bytes| == Padded(|p|) && d.bytes[..|p|] == p
  }

  ghost predicate ShowAll(ds: seq<Dumped>, ps: seq<Packet>) {
    |ds| == |ps| && forall i :: 0 <= i < |ds| ==> Shows(ds[i], ps[i])
  }

  /** What one round of the dump loop hands over for the header at offset o. */
  function Dump(mem: seq<Octet>, o: nat): Dumped
    requires o + HDR_SIZE <= |mem| && o + HDR_SIZE + Field(mem, o + 2) <= |mem|
  {
    Dumped(Field(mem, o), Field(mem, o + 2), mem[o + HDR_SIZE..o + HDR_SIZE + Field(mem, o + 2)])
  }

  lemma DumpShows(mem: seq<Octet>, o: nat, p: Packet)
    requires Record(mem, o, p)
    ensures o + HDR_SIZE + Field(mem, o + 2) <= |mem| && Field(mem, o + 2) == RecordSize(p) - HDR_SIZE
    ensures Shows(Dump(mem, o), p)
  {
    assert Dump(mem, o).bytes[..|p|] == mem[o + HDR_SIZE..o + HDR_SIZE + |p|];
  }

  /** So far `out` shows the packets in front of `rest`. */
  ghost predicate Shown(ps: seq<Packet>, out: seq<Dumped>, rest: seq<Packet>) {
    |out| <= |Visible(ps)| && Visible(ps)[|out|..] == Visible(rest) && ShowAll(out, Visible(ps)[..|out|])
  }

  lemma ShownNone(ps: seq<Packet>)
    ensures Shown(ps, [], ps)
  {
    assert Visible(ps)[0..] == Visible(ps);
  }

  lemma ShowNext(ps: seq<Packet>, out: seq<Dumped>, rest: seq<Packet>, d: Dumped)
    requires Shown(ps, out, rest) && rest != [] && rest[0] != [] && Shows(d, rest[0])
    ensures Shown(ps, out + [d], rest[1..])
  {
    var k := |out|;
    assert Visible(rest) == [rest[0]] + Visible(rest[1..]);
    assert Visible(ps)[k] == Visible(ps)[k..][0];
    assert Visible(ps)[k + 1..] == Visible(rest)[1..];
    assert Visible(ps)[..k + 1] == Visible(ps)[..k] + [rest[0]];
  }

  lemma ShownAll(ps: seq<Packet>, out: seq<Dumped>, rest: seq<Packet>)
    requires Shown(ps, out, rest) && (rest == [] || rest[0] == [])
    ensures ShowAll(out, Visible(ps))
  {
    assert Visible(rest) == [];
    assert Visible(ps)[..|out|] == Visible(ps);
  }

  /** Under the header at o: a length of zero means the sentinel or an empty packet. */
  lemma Header(mem: seq<Octet>, o: nat, rest: seq<Packet>)
    requires Records(mem, o, rest) && o + Size(rest) + 2 <= |mem| && Field(mem, o + Size(rest)) == 0
    ensures o + 2 <= |mem| && (Field(mem, o) == 0 <==> rest == [] || rest[0] == [])
    ensures Field(mem, o) != 0 ==> Record(mem, o, rest[0]) && Records(mem, o + RecordSize(rest[0]), rest[1..])
  {
  }

  class CaptureBuffer {
    const mem: array<Octet>        // the memory zone
    var tail: nat                  // offset where the next record goes
    var used: nat
    ghost var packets: seq<Packet> // stored since capturing was enabled

    /** The records are in place; the tail, like every record size even, is at or before `end`, so that a
        header fits. */
    ghost predicate Holds()
      reads this, mem
    {
      mem.Length >= HDR_SIZE && tail == Size(packets) && tail <= End() &&
      Records(mem[..], 0, packets)
    }

    /** Moreover the sentinel stands at the tail. */
    ghost predicate Valid()
      reads this, mem
    {
      Holds() && used == tail && mem[tail] == 0 && mem[tail + 1] == 0
    }

    /** `end`: the last offset at which a header fits. */
    function End(): nat
      requires mem.Length >= HDR_SIZE
    {
      mem.Length - HDR_SIZE
    }

    /** A reserved zone of the given size, as enabling the capture leaves it. */
    constructor (size: nat)
      requires size >= HDR_SIZE
      ensures Valid() && fresh(mem) && mem.Length == size && packets == []
    {
      mem := new Octet[size];
      tail, used, packets := 0, 0, [];
      new;
      mem[0], mem[1] := 0, 0;
    }

    /** The part of pktgen_set_capture that empties the region. */
    method Reset()
      requires Valid()
      modifies this, mem
      ensures Valid() && packets == []
    {
      used, tail, packets := 0, 0, [];
      forall i | 0 <= i < HDR_SIZE {
        mem[i] := 0;
      }
      forall i | End() <= i < mem.Length {
        mem[i] := 0;
      }
    }

    /** Writes one record at the tail. */
    method WriteRecord(p: Packet)
      requires tail + RecordSize(p) <= mem.Length
      modifies mem
      ensures mem[..][..tail] == old(mem[..])[..tail] && Record(mem[..], tail, p)
    {
      var plen := Padded(|p|);
      mem[tail], mem[tail + 1] := |p| % 256, |p| / 256;
      mem[tail + 2], mem[tail + 3] := plen % 256, plen / 256;
      forall i | 0 <= i < |p| {
        mem[tail + HDR_SIZE + i] := p[i];
      }
    }

    /** One round of the capture loop for a packet that fits. */
    method Append(p: Packet)
      requires Holds() && tail + RecordSize(p) <= End()
      modifies `tail, `packets, mem
      ensures Holds() && packets == old(packets) + [p] && tail == old(tail) + RecordSize(p)
    {
      ghost var was := mem[..];
      WriteRecord(p);
      ghost var now := mem[..];
      Appended(was, now, packets, p);
      tail := tail + RecordSize(p);
      packets := packets + [p];
      assert mem[..] == now;
    }

    /** Writes the sentinel. */
    method Seal()
      requires Holds()
      modifies `used, mem
      ensures Valid()
    {
      ghost var was := mem[..];
      mem[tail], mem[tail + 1] := 0, 0;
      assert mem[..][..tail] == was[..tail];
      RecordsSurvive(was, mem[..], 0, packets);
      used := tail;
    }

    /** pktgen_packet_capture_bulk: store packets until one does not fit. */
    method Bulk(pkts: seq<Packet>)
      requires Valid()
      modifies this, mem
      ensures Valid() && packets == old(packets) + Accepted(End() - old(tail), pkts)
    {
      if tail == End() {
        return;
      }
      ghost var before, room := packets, End() - tail;
      hide Records;
      MidwayStart(before, room, pkts);
      var i := 0;
      while i < |pkts| && tail + RecordSize(pkts[i]) <= End()
        invariant i <= |pkts| && Holds()
        invariant Midway(before, room, pkts, packets, End() - tail, i)
      {
        MidwayNext(before, room, pkts, packets, End() - tail, i);
        Append(pkts[i]);
        i := i + 1;
      }
      MidwayEnd(before, room, pkts, packets, End() - tail, i);
      Seal();
    }

    /** The dump loop of pktgen_set_capture: follow the records until a length of zero. */
    method Walk() returns (out: seq<Dumped>)
      requires Valid()
      ensures ShowAll(out, Visible(packets))
    {
      hide Records, Record, Shows, ShowAll, Visible;
      out := [];
      var hdr: nat := 0;
      ghost var rest := packets;
      Header(mem[..], 0, rest);
      ShownNone(packets);
      while Field(mem[..], hdr) != 0
        invariant hdr + Size(rest) == tail && Records(mem[..], hdr, rest) && Shown(packets, out, rest)
        invariant hdr + 2 <= mem.Length && (Field(mem[..], hdr) == 0 <==> rest == [] || rest[0] == [])
        decreases |rest|
      {
        Header(mem[..], hdr, rest);
        DumpShows(mem[..], hdr, rest[0]);
        ShowNext(packets, out, rest, Dump(mem[..], hdr));
        out := out + [Dump(mem[..], hdr)];
        hdr := hdr + HDR_SIZE + Field(mem[..], hdr + 2);
        rest := rest[1..];
        Header(mem[..], hdr, rest);
      }
      ShownAll(packets, out, rest);
    }
  }

  /** The walk yields every stored packet exactly when none of them is empty. */
  lemma {:induction false} AllVisibleIff(ps: seq<Packet>)
    ensures Visible(ps) == ps <==> forall i :: 0 <= i < |ps| ==> ps[i] != []
  {
    if ps != [] {
      AllVisibleIff(ps[1..]);
      if ps[0] != [] {
        assert ps == [ps[0]] + ps[1..];
        assert Visible(ps) == [ps[0]] + Visible(ps[1..]);
        assert Visible(ps)[1..] == Visible(ps[1..]);
        assert (forall i :: 0 <= i < |ps| ==> ps[i] != []) <==> forall i :: 0 <= i < |ps[1..]| ==> ps[1..][i] != [] by {
          assert forall i :: 0 <= i < |ps[1..]| ==> ps[1..][i] == ps[i + 1];
          assert forall i :: 0 < i < |ps| ==> ps[i] == ps[1..][i - 1];
        }
      }
    }
  }

  /** The walk gives back the packets as they were, exactly when each is non-empty and of even length. */
  lemma WalkReturnsPacketsIff(ds: seq<Dumped>, ps: seq<Packet>)
    requires ShowAll(ds, Visible(ps))
    ensures (|ds| == |ps| && forall i :: 0 <= i < |ps| ==> ds[i].bytes == ps[i]) <==>
      forall i :: 0 <= i < |ps| ==> ps[i] != [] && |ps[i]| % 2 == 0
  {
    AllVisibleIff(ps);
    assert |Visible(ps)| == |ps| ==> Visible(ps) == ps;
    forall i | 0 <= i < |ds| ensures ds[i].bytes == Visible(ps)[i] <==> |Visible(ps)[i]| % 2 == 0 {
      ShownBytes(ds[i], Visible(ps)[i]);
    }
  }

  lemma ShownBytes(d: Dumped, p: Packet)
    requires Shows(d, p)
    ensures d.bytes == p <==> |p| % 2 == 0
  {
    assert |p| % 2 == 0 ==> d.bytes[..|p|] == d.bytes;
  }
}

module CaptureOwners {

  /** What is fixed while the program runs: the queues of the ports, the lcores of the ports in order,
      the ports each lcore receives from, the socket of each lcore, and which sockets have a region. */
  datatype Config = Config(
    rxCnt: seq<nat>,
    lids: seq<seq<nat>>,
    rxPorts: seq<seq<nat>>,
    socketOf: seq<nat>,
    hasMem: seq<bool>)
  {
    ghost predicate Ok() {
      |rxCnt| == |lids| && |rxPorts| == |socketOf| &&
      (forall p, i :: 0 <= p < |lids| && 0 <= i < |lids[p]| ==> lids[p][i] < |rxPorts|) &&
      forall l :: 0 <= l < |socketOf| ==> socketOf[l] < |hasMem|
    }

    /** Stands for "no lcore" (RTE_MAX_LCORE). */
    function NoLcore(): nat {
      |rxPorts|
    }

    /** Stands for "no port" (RTE_MAX_ETHPORTS). */
    function NoPort(): nat {
      |rxCnt|
    }

    /** The first lcore from index i of p's list on that receives from p. */
    function RxLcoreFrom(p: nat, i: nat): (l: nat)
      requires Ok() && p < |lids| && i <= |lids[p]|
      ensures l <= NoLcore()
      decreases |lids[p]| - i
    {
      if i == |lids[p]| then NoLcore()
      else if p in rxPorts[lids[p][i]] then lids[p][i]
      else RxLcoreFrom(p, i + 1)
    }

    function RxLcore(p: nat): nat
      requires Ok() && p < |lids|
    {
      RxLcoreFrom(p, 0)
    }
  }

  datatype Outcome = Done | AlreadySo | NoRxQueue | NoRxLcore | NoMemory | Busy

  class Owners {
    const cfg: Config
    var flag: seq<bool>   // CAPTURE_PKTS of each port
    var lcore: seq<nat>   // of each socket
    var port: seq<nat>

    ghost predicate Valid()
      reads this
    {
      cfg.Ok() && |flag| == |cfg.rxCnt| && |lcore| == |port| == |cfg.hasMem| &&
      (forall s :: 0 <= s < |port| && cfg.hasMem[s] ==>
        if port[s] == cfg.NoPort() then lcore[s] == cfg.NoLcore() else Owns(port[s], s)) &&
      forall p :: 0 <= p < |flag| && flag[p] ==>
        cfg.RxLcore(p) < cfg.NoLcore() && cfg.hasMem[cfg.socketOf[cfg.RxLcore(p)]] &&
        port[cfg.socketOf[cfg.RxLcore(p)]] == p
    }

    /** Socket s is rightly p's: p's receiving lcore sits on it. */
    ghost predicate Owns(p: nat, s: nat)
      requires cfg.Ok() && |flag| == |cfg.rxCnt| && |lcore| == |port| == |cfg.hasMem| && s < |lcore|
      reads this
    {
      p < |flag| && flag[p] && cfg.rxCnt[p] > 0 &&
      cfg.RxLcore(p) < cfg.NoLcore() && lcore[s] == cfg.RxLcore(p) && s == cfg.socketOf[lcore[s]]
    }

    /** pktgen_packet_capture_init for all sockets; those without memory hold arbitrary values. */
    constructor (cfg: Config, otherLcore: nat, otherPort: nat)
      requires cfg.Ok()
      ensures Valid() && this.cfg == cfg && flag == seq(|cfg.rxCnt|, _ => false)
    {
      this.cfg := cfg;
      flag := seq(|cfg.rxCnt|, _ => false);
      lcore := seq(|cfg.hasMem|, s requires 0 <= s < |cfg.hasMem| =>
        if cfg.hasMem[s] then cfg.NoLcore() else otherLcore);
      port := seq(|cfg.hasMem|, s requires 0 <= s < |cfg.hasMem| => if cfg.hasMem[s] then cfg.NoPort() else otherPort);
    }

    /** The nested search of pktgen_set_capture. */
    method FindRxLcore(pid: nat) returns (lid: nat)
      requires cfg.Ok() && pid < |cfg.lids|
      ensures lid == cfg.RxLcore(pid)
    {
      var idx := 0;
      while idx < |cfg.lids[pid]|
        invariant idx <= |cfg.lids[pid]| && cfg.RxLcoreFrom(pid, idx) == cfg.RxLcore(pid)
      {
        lid := cfg.lids[pid][idx];
        var rxid := 0;
        while rxid < |cfg.rxPorts[lid]|
          invariant rxid <= |cfg.rxPorts[lid]| && pid !in cfg.rxPorts[lid][..rxid]
        {
          if cfg.rxPorts[lid][rxid] == pid {
            return;
          }
          rxid := rxid + 1;
        }
        idx := idx + 1;
      }
      lid := cfg.NoLcore();
    }

    /** pktgen_set_capture with ENABLE_STATE. */
    method Enable(pid: nat) returns (outcome: Outcome)
      requires Valid() && pid < |flag|
      modifies this
      ensures Valid()
      ensures outcome != Done ==> flag == old(flag) && lcore == old(lcore) && port == old(port)
      ensures outcome ==
        if old(flag)[pid] then AlreadySo
        else if cfg.rxCnt[pid] == 0 then NoRxQueue
        else if cfg.RxLcore(pid) == cfg.NoLcore() then NoRxLcore
        else if !cfg.hasMem[cfg.socketOf[cfg.RxLcore(pid)]] then NoMemory
        else if old(port)[cfg.socketOf[cfg.RxLcore(pid)]] != cfg.NoPort() then Busy
        else Done
      ensures outcome == Done ==>
        var sid := cfg.socketOf[cfg.RxLcore(pid)];
        flag == old(flag)[pid := true] && lcore == old(lcore)[sid := cfg.RxLcore(pid)] && port == old(port)[sid := pid]
    {
      if flag[pid] {
        return AlreadySo;
      }
      if cfg.rxCnt[pid] == 0 {
        return NoRxQueue;
      }
      var lid := FindRxLcore(pid);
      if lid == cfg.NoLcore() {
        return NoRxLcore;
      }
      var sid := cfg.socketOf[lid];
      if !cfg.hasMem[sid] {
        return NoMemory;
      }
      if lcore[sid] != cfg.NoLcore() {
        return Busy;
      }
      lcore, port := lcore[sid := lid], port[sid := pid];
      flag := flag[pid := true];
      outcome := Done;
    }

    /** pktgen_set_capture with DISABLE_STATE.  The two branches the original remarks should never
        happen - a capturing port without receive queue, or without a socket - do not happen. */
    method Disable(pid: nat) returns (outcome: Outcome)
      requires Valid() && pid < |flag|
      modifies this
      ensures Valid()
      ensures outcome == if old(flag)[pid] then Done else AlreadySo
      ensures flag == old(flag)[pid := false]
      ensures forall s :: 0 <= s < |port| ==>
        if old(flag)[pid] && cfg.hasMem[s] && old(port)[s] == pid
        then port[s] == cfg.NoPort() && lcore[s] == cfg.NoLcore()
        else port[s] == old(port)[s] && lcore[s] == old(lcore)[s]
    {
      if !flag[pid] {
        return AlreadySo;
      }
      ghost var home := cfg.socketOf[cfg.RxLcore(pid)];
      assert Owns(port[home], home);
      if cfg.rxCnt[pid] == 0 {
        assert false;
      }
      var sid := 0;
      while sid < |cfg.hasMem| && !(cfg.hasMem[sid] && port[sid] == pid)
        invariant sid <= home
      {
        sid := sid + 1;
      }
      if sid == |cfg.hasMem| {
        assert false;
      }
      lcore, port := lcore[sid := cfg.NoLcore()], port[sid := cfg.NoPort()];
      flag := flag[pid := false];
      outcome := Done;
    }

    /** A port captures exactly when one socket with memory names it as its owner, and then only one
        does. */
    lemma FlagIffOneOwner(p: nat)
      requires Valid() && p < |flag|
      ensures flag[p] <==> exists s :: 0 <= s < |port| && cfg.hasMem[s] && port[s] == p
      ensures forall s, t ::
        0 <= s < |port| && 0 <= t < |port| && cfg.hasMem[s] && cfg.hasMem[t] && port[s] == p && port[t] == p
        ==> s == t
    {
      forall s | 0 <= s < |port| && cfg.hasMem[s] && port[s] == p ensures Owns(p, s) {
      }
    }
  }
}
