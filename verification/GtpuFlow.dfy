/** GTP-U encapsulation of range packets (pktgen/app/pktgen.c) and the per-flow counters
    (pktgen/app/pktgen-tool.c), in the generator role. */
module GtpuFlow {
  import opened Arith
  import opened RangeFlow

  type Word32 = n: nat | n < 0x1_0000_0000

  datatype GtpuInfo = GtpuInfo(enbStart: Word32, noOfEnb: Word32, noOfUe: Word32, s1uTeid: Word32)

  /** How far the eNB counter gets before the bound n stops it: n - 1 is computed in 32 bits. */
  function Bound(n: Word32): (b: nat)
    ensures b > 0
  {
    if n == 0 then WORD32 else n
  }

  /** The period of the outer source addresses: the smaller of the numbers of UEs and eNBs. */
  function Period(info: GtpuInfo): (p: nat)
    ensures 0 < p <= WORD32
  {
    if Bound(info.noOfUe) < Bound(info.noOfEnb) then Bound(info.noOfUe) else Bound(info.noOfEnb)
  }

  /** The outer source address of the n-th packet. */
  function EnbOf(info: GtpuInfo, n: nat): Word32 {
    (info.enbStart + n % Period(info)) % WORD32
  }

  /** The tunnel id of a packet from the given UE. */
  function Teid(info: GtpuInfo, startIp: Word32, src: Word32): Word32 {
    (info.s1uTeid + (src - startIp) % WORD32) % WORD32
  }

  lemma ModOfMod(a: int, b: int, m: int)
    requires m > 0
    ensures (a + b % m) % m == (a + b) % m
  {
    var q := (a + b % m) / m;
    assert a + b % m == m * q + (a + b % m) % m;
    assert b == m * (b / m) + b % m;
    assert (q + b / m) * m == m * q + m * (b / m);
    RemainderIs(a + b, m, q + b / m);
  }

  lemma OffsetKeepsApart(a: int, x: Word32, y: Word32)
    requires (a + x) % WORD32 == (a + y) % WORD32
    ensures x == y
  {
    assert a + x == WORD32 * ((a + x) / WORD32) + (a + x) % WORD32;
    assert a + y == WORD32 * ((a + y) / WORD32) + (a + y) % WORD32;
  }

  /** The tunnel id identifies the UE: two addresses have the same one only if they are the same. */
  lemma TeidIdentifiesUe(info: GtpuInfo, startIp: Word32, x: Word32, y: Word32)
    ensures Teid(info, startIp, x) == Teid(info, startIp, y) <==> x == y
  {
    ModOfMod(info.s1uTeid, x - startIp, WORD32);
    ModOfMod(info.s1uTeid, y - startIp, WORD32);
    if Teid(info, startIp, x) == Teid(info, startIp, y) {
      OffsetKeepsApart(info.s1uTeid - startIp, x, y);
    }
  }

  /** The check of parse_user_config on a range of eNB addresses: the end that is kept, if accepted. */
  datatype EnbRange = Accepted(end: Word32) | Rejected

  function ParseEnbRange(start: Word32, noOfEnb: Word32, end: Word32): EnbRange {
    var last := (start + noOfEnb - 1) % WORD32;
    if last > end then Rejected else Accepted(last)
  }

  /** Every outer source address lies in the accepted range exactly when the range did not wrap around
      32 bits - which the check does not ensure - or, there being no eNB at all, starts at address 0. */
  lemma OuterSourceInRangeIff(info: GtpuInfo, end: Word32)
    requires ParseEnbRange(info.enbStart, info.noOfEnb, end).Accepted?
    ensures var last := ParseEnbRange(info.enbStart, info.noOfEnb, end).end;
      (forall n: nat :: info.enbStart <= EnbOf(info, n) <= last) <==>
      if info.noOfEnb > 0 then info.enbStart + info.noOfEnb - 1 < WORD32 else info.enbStart == 0
  {
    var last := ParseEnbRange(info.enbStart, info.noOfEnb, end).end;
    if if info.noOfEnb > 0 then info.enbStart + info.noOfEnb - 1 < WORD32 else info.enbStart == 0 {
      forall n: nat ensures info.enbStart <= EnbOf(info, n) <= last {
        SmallMod(info.enbStart + n % Period(info), WORD32);
      }
    } else {
      SmallMod(0, Period(info));
      assert EnbOf(info, 0) == info.enbStart > last;
    }
  }

  lemma ModModDivides(n: nat, l: nat, p: nat)
    requires l > 0 && p > 0 && l % p == 0
    ensures (n % l) % p == n % p
  {
    var c, q := l / p, n / l;
    assert l == p * c && n == l * q + n % l;
    assert l * q == p * (c * q);
    var r := n % l;
    assert r == p * (r / p) + r % p;
    assert p * (c * q) + p * (r / p) == (c * q + r / p) * p;
    RemainderIs(n, p, c * q + r / p);
  }

  /** Positions a and b of a series that begins at position k of a round of length m. */
  predicate Together(a: nat, b: nat, k: nat, m: nat)
    requires m > 0
  {
    (a + k) % m == (b + k) % m
  }

  lemma TogetherAnywhere(a: nat, b: nat, k: nat, m: nat)
    requires m > 0
    ensures Together(a, b, k, m) <==> a % m == b % m
  {
    if a % m == b % m {
      ShiftKeeps(a, b, k, m);
    }
    if Together(a, b, k, m) {
      ShiftKeeps(a + k, b + k, -(k as int), m);
      assert a + k + -(k as int) == a && b + k + -(k as int) == b;
    }
  }

  lemma ShiftKeeps(a: int, b: int, d: int, m: nat)
    requires m > 0 && a % m == b % m
    ensures (a + d) % m == (b + d) % m
  {
    assert a + d == d + a && b + d == d + b;
    ModOfMod(d, a, m);
    ModOfMod(d, b, m);
  }

  /** Two packets of the same UE always leave through the same eNB, exactly when the period of the eNBs
      divides the number of UE addresses, l - whatever address number k and count c the first packet finds.
      (The inner address is stepped before each packet, so packet n carries address number n + k + 1.) */
  lemma PairingIff(p: nat, l: nat, k: nat, c: nat)
    requires p > 0 && l > 0
    ensures (forall a: nat, b: nat :: Together(a, b, k + 1, l) ==> Together(a, b, c, p)) <==> l % p == 0
  {
    hide Together;
    if l % p == 0 {
      forall a: nat, b: nat | Together(a, b, k + 1, l) ensures Together(a, b, c, p) {
        TogetherAnywhere(a, b, k + 1, l);
        TogetherAnywhere(a, b, c, p);
        ModModDivides(a, l, p);
        ModModDivides(b, l, p);
      }
    } else {
      RemainderIs(l, l, 1);
      SmallMod(0, l);
      SmallMod(0, p);
      TogetherAnywhere(0, l, k + 1, l);
      TogetherAnywhere(0, l, c, p);
    }
  }

  /** Packets a and b of a series that begins after address number k carry the same UE address. */
  ghost predicate SameUe(range: Field, k: nat, a: nat, b: nat) {
    Nth(range, WORD32, range.min, a + (k + 1)) == Nth(range, WORD32, range.min, b + (k + 1))
  }

  /** Packets a and b of a series that begins at count c leave through the same eNB. */
  ghost predicate SameEnb(info: GtpuInfo, c: nat, a: nat, b: nat) {
    EnbOf(info, a + c) == EnbOf(info, b + c)
  }

  /** The same of what the packets carry: every UE address keeps its eNB in every round, wherever the
      series begins, exactly when the number of addresses is a multiple of the eNB period. */
  lemma UeKeepsItsEnbIff(info: GtpuInfo, range: Field, k: nat, c: nat)
    requires Fits(range, WORD32) && range.inc > 0 && range.min <= range.max && Closes(range, WORD32)
    ensures (forall a: nat, b: nat :: SameUe(range, k, a, b) ==> SameEnb(info, c, a, b)) <==>
      Length(range) % Period(info) == 0
  {
    var l, p := Length(range), Period(info);
    PairingIff(p, l, k, c);
    forall a: nat, b: nat ensures SameUe(range, k, a, b) <==> Together(a, b, k + 1, l) {
      SameAddressIff(range, a + (k + 1), b + (k + 1));
    }
    forall a: nat, b: nat ensures SameEnb(info, c, a, b) <==> Together(a, b, c, p) {
      SameEnbIff(info, a + c, b + c);
    }
    hide SameUe, SameEnb, Together;
    if l % p != 0 {
      var a: nat, b: nat :| Together(a, b, k + 1, l) && !Together(a, b, c, p);
      assert SameUe(range, k, a, b) && !SameEnb(info, c, a, b);
    }
  }

  /** Series can be joined: stepping on from the k-th value gives the values after it. */
  lemma {:induction false} NthAgain(f: Field, m: nat, v: nat, k: nat, n: nat)
    requires m > 0
    ensures Nth(f, m, Nth(f, m, v, k), n) == Nth(f, m, v, k + n)
  {
    if n > 0 {
      NthAgain(f, m, v, k, n - 1);
      assert k + n - 1 == k + (n - 1);
    }
  }

  lemma SameAddressIff(f: Field, a: nat, b: nat)
    requires Fits(f, WORD32) && f.inc > 0 && f.min <= f.max && Closes(f, WORD32)
    ensures Nth(f, WORD32, f.min, a) == Nth(f, WORD32, f.min, b) <==> a % Length(f) == b % Length(f)
  {
    RoundStep(f, WORD32, a);
    RoundStep(f, WORD32, b);
    if Nth(f, WORD32, f.min, a) == Nth(f, WORD32, f.min, b) {
      SameProduct(a % Length(f), b % Length(f), f.inc);
    }
  }

  lemma SameEnbIff(info: GtpuInfo, a: nat, b: nat)
    ensures EnbOf(info, a) == EnbOf(info, b) <==> a % Period(info) == b % Period(info)
  {
    if EnbOf(info, a) == EnbOf(info, b) {
      OffsetKeepsApart(info.enbStart, a % Period(info), b % Period(info));
    }
  }

  /** The increment and the two tests of construct_ipv4_hdr count modulo the period. */
  lemma NextCount(info: GtpuInfo, cnt: Word32)
    requires cnt < Period(info)
    ensures var c := (cnt + 1) % WORD32;
      (if c > (info.noOfUe - 1) % WORD32 || c > (info.noOfEnb - 1) % WORD32 then 0 else c) == (cnt + 1) % Period(info)
  {
    SmallMod(cnt, Period(info));
    NextMod(cnt, Period(info));
    StopsAt(info.noOfUe);
    StopsAt(info.noOfEnb);
    if cnt + 1 < WORD32 {
      SmallMod(cnt + 1, WORD32);
    }
  }

  lemma StopsAt(n: Word32)
    ensures (n - 1) % WORD32 == Bound(n) - 1
  {
  }

  /** What the setup callback puts into one packet buffer. */
  datatype Frame = Frame(teid: Word32, outerSrc: Word32, innerSrc: Word32)

  class Encapsulation {
    const info: GtpuInfo
    var enbCnt: Word32      // the static counter of construct_ipv4_hdr

    /** The outer source address of construct_ipv4_hdr; the counter moves on modulo the period. */
    method OuterSource() returns (a: Word32)
      requires enbCnt < Period(info)
      modifies this
      ensures a == EnbOf(info, old(enbCnt)) && enbCnt == (old(enbCnt) + 1) % Period(info)
    {
      SmallMod(enbCnt, Period(info));
      NextCount(info, enbCnt);
      a := (info.enbStart + enbCnt) % WORD32;
      enbCnt := (enbCnt + 1) % WORD32;
      if enbCnt > (info.noOfUe - 1) % WORD32 || enbCnt > (info.noOfEnb - 1) % WORD32 {
        enbCnt := 0;
      }
    }

    /** The range branch of pktgen_setup_cb, for one packet buffer after the other. */
    method Setup(ctor: RangeCtor, range: RangeInfo, pkt: RangePacket, startIp: Word32, buffers: nat)
      returns (frames: seq<Frame>)
      requires range.Ok() && pkt.ipv4L4 && pkt.src < WORD32 && enbCnt < Period(info)
      modifies this, ctor, pkt
      ensures |frames| == buffers && enbCnt < Period(info) && enbCnt == (old(enbCnt) + buffers) % Period(info)
      ensures pkt.src == Nth(range.src, WORD32, old(pkt.src), buffers) < WORD32
      ensures forall n :: 0 <= n < buffers ==>
        frames[n].innerSrc == Nth(range.src, WORD32, old(pkt.src), n + 1) &&
        frames[n].outerSrc == EnbOf(info, old(enbCnt) + n) &&
        frames[n].teid == Teid(info, startIp, frames[n].innerSrc)
    {
      hide Step, EnbOf, Teid, Nth, RangeInfo.Ok;
      frames := [];
      ghost var src, cnt := pkt.src, enbCnt;
      SmallMod(cnt, Period(info));
      StartOfNth(range.src, WORD32, src);
      while |frames| < buffers
        invariant |frames| <= buffers && pkt.src < WORD32 && enbCnt < Period(info)
        invariant pkt.src == Nth(range.src, WORD32, src, |frames|) && enbCnt == (cnt + |frames|) % Period(info)
        invariant forall n :: 0 <= n < |frames| ==> Expected(frames[n], range.src, src, cnt, startIp, n)
      {
        NextOfNth(range, src, |frames|);
        EnbOfRest(info, cnt + |frames|);
        NextMod(cnt + |frames|, Period(info));
        SmallMod(enbCnt, Period(info));
        NextMod(enbCnt, Period(info));
        ctor.Construct(range, pkt);
        var outer := OuterSource();
        frames := frames + [Frame(Teid(info, startIp, pkt.src), outer, pkt.src)];
      }
    }

    /** Frame number n, with the inner address at src and the counter at cnt before the first. */
    ghost predicate Expected(f: Frame, range: Field, src: nat, cnt: nat, startIp: Word32, n: nat) {
      f.innerSrc == Nth(range, WORD32, src, n + 1) && f.outerSrc == EnbOf(info, cnt + n) &&
      f.teid == Teid(info, startIp, f.innerSrc)
    }
  }

  lemma StartOfNth(f: Field, m: nat, v: nat)
    requires m > 0
    ensures Nth(f, m, v, 0) == v
  {
  }

  lemma NextOfNth(range: RangeInfo, v: nat, n: nat)
    requires range.Ok()
    ensures Nth(range.src, WORD32, v, n + 1) == Step(range.src, WORD32, Nth(range.src, WORD32, v, n)) < WORD32
  {
  }

  lemma EnbOfRest(info: GtpuInfo, n: nat)
    ensures EnbOf(info, n % Period(info)) == EnbOf(info, n)
  {
    SmallMod(n % Period(info), Period(info));
  }

  // ----- per-flow counters -----

  const MAX_QUEUES: nat := 16   // PKTGEN_TOOL_MAX_QUEUES
  const MAX_PORTS: nat := 10    // length of pid_rx_tx_cnts

  /** Column q of a table with rows for the ports. */
  function Column(t: seq<seq<nat>>, q: nat): (c: seq<nat>)
    requires forall p :: 0 <= p < |t| ==> q < |t[p]|
    ensures |c| == |t| && forall p :: 0 <= p < |t| ==> c[p] == t[p][q]
  {
    seq(|t|, p requires 0 <= p < |t| => t[p][q])
  }

  lemma {:induction false} SumUpdate(s: seq<nat>, i: nat, v: nat)
    requires i < |s|
    ensures Sum(s[i := v]) == Sum(s) - s[i] + v
  {
    var t := s[i := v];
    if i == |s| - 1 {
      assert t[..|t| - 1] == s[..|s| - 1];
    } else {
      SumUpdate(s[..|s| - 1], i, v);
      assert t[..|t| - 1] == s[..|s| - 1][i := v];
    }
  }

  lemma {:induction false} SumZeros(n: nat)
    ensures Sum(seq(n, _ => 0)) == 0
  {
    if n > 0 {
      SumZeros(n - 1);
      assert seq(n, _ => 0)[..n - 1] == seq(n - 1, _ => 0);
    }
  }

  function Bump(t: seq<seq<nat>>, i: nat, j: nat): seq<seq<nat>>
    requires i < |t| && j < |t[i]|
  {
    t[i := t[i][j := t[i][j] + 1]]
  }

  /** Per queue, the packets counted over all ports are the packets counted over all flows. */
  ghost predicate Balanced(ports: seq<seq<nat>>, flows: seq<seq<nat>>) {
    |ports| == MAX_PORTS && (forall p :: 0 <= p < |ports| ==> |ports[p]| == MAX_QUEUES) &&
    |flows| == MAX_QUEUES && forall q :: 0 <= q < |flows| ==> Sum(Column(ports, q)) == Sum(flows[q])
  }

  lemma BumpBoth(ports: seq<seq<nat>>, flows: seq<seq<nat>>, p: nat, q: nat, f: nat)
    requires Balanced(ports, flows) && p < MAX_PORTS && q < MAX_QUEUES && f < |flows[q]|
    ensures Balanced(Bump(ports, p, q), Bump(flows, q, f))
  {
    var ports', flows' := Bump(ports, p, q), Bump(flows, q, f);
    forall r | 0 <= r < |flows'| ensures Sum(Column(ports', r)) == Sum(flows'[r]) {
      if r == q {
        assert Column(ports', q) == Column(ports, q)[p := ports[p][q] + 1];
        SumUpdate(Column(ports, q), p, ports[p][q] + 1);
        SumUpdate(flows[q], f, flows[q][f] + 1);
      } else {
        assert Column(ports', r) == Column(ports, r);
      }
    }
  }

  function Zeros(rows: nat, columns: nat): seq<seq<nat>> {
    seq(rows, _ => seq(columns, _ => 0))
  }

  lemma ZerosBalanced(n: nat)
    ensures Balanced(Zeros(MAX_PORTS, MAX_QUEUES), Zeros(MAX_QUEUES, n))
  {
    forall q | 0 <= q < MAX_QUEUES
      ensures Sum(Column(Zeros(MAX_PORTS, MAX_QUEUES), q)) == Sum(Zeros(MAX_QUEUES, n)[q])
    {
      assert Column(Zeros(MAX_PORTS, MAX_QUEUES), q) == seq(MAX_PORTS, _ => 0);
      SumZeros(MAX_PORTS);
      SumZeros(n);
    }
  }

  class FlowCounters {
    var startIp: Word32
    var endIp: Word32
    var haveTables: bool              // the two per-flow tables exist
    var flows: nat                   // and have this many entries per queue
    var rxQid: seq<seq<nat>>         // per port and queue
    var txQid: seq<seq<nat>>
    var perFlowRx: seq<seq<nat>>     // per queue and flow
    var perFlowTx: seq<seq<nat>>

    ghost predicate Valid()
      reads this
    {
      if haveTables then
        Balanced(rxQid, perFlowRx) && Balanced(txQid, perFlowTx) &&
        forall q :: 0 <= q < MAX_QUEUES ==> |perFlowRx[q]| == |perFlowTx[q]| == flows
      else
        rxQid == txQid == Zeros(MAX_PORTS, MAX_QUEUES)
    }

    /** Counting a packet with this address stays within the tables. */
    predicate Storable(ip: Word32)
      reads this
    {
      ip == 0 || ip > endIp || ip < startIp || (haveTables && ip - startIp < flows)
    }

    /** Every address is storable. */
    predicate Covers()
      reads this
      ensures Covers() <==> forall ip: Word32 :: Storable(ip)
    {
      assert endIp > 0 && endIp >= startIp ==> Storable(endIp) == (haveTables && endIp - startIp < flows);
      endIp == 0 || endIp < startIp || (haveTables && endIp - startIp < flows)
    }

    constructor ()
      ensures Valid() && !haveTables && startIp == endIp == 0 && Covers()
    {
      startIp, endIp, haveTables, flows := 0, 0, false, 0;
      rxQid, txQid := Zeros(MAX_PORTS, MAX_QUEUES), Zeros(MAX_PORTS, MAX_QUEUES);
      perFlowRx, perFlowTx := [], [];
    }

    /** set_ip_pkt_counters: a later call does not resize the tables. */
    method SetIpPktCounters(subs: nat)
      requires Valid()
      modifies `haveTables, `flows, `perFlowRx, `perFlowTx
      ensures Valid() && haveTables && flows == if old(haveTables) then old(flows) else subs
      ensures old(haveTables) ==> perFlowRx == old(perFlowRx) && perFlowTx == old(perFlowTx)
      ensures !old(haveTables) ==> perFlowRx == perFlowTx == Zeros(MAX_QUEUES, subs)
    {
      if !haveTables {
        ZerosBalanced(subs);
        perFlowRx, perFlowTx := Zeros(MAX_QUEUES, subs), Zeros(MAX_QUEUES, subs);
        haveTables, flows := true, subs;
      }
    }

    /** The part of single_set_ipaddr for the first address counted.
        The tables keep their size, so they cover the addresses exactly if the last one is not too far
        from the new first one. */
    method SetStartIp(ip: Word32)
      requires Valid()
      modifies `startIp
      ensures Valid() && startIp == ip
      ensures Covers() <==> endIp == 0 || endIp < ip || (haveTables && endIp - ip < flows)
    {
      startIp := ip;
    }

    /** The part of range_set_src_ip for the maximum; the number of flows is computed in 32 bits.  Set for
        the first time above the minimum, it covers every address exactly when no address before the
        minimum is counted - but for the range of all 2^32 addresses, which gets tables without entries.
        Set again, it covers what fits the tables as first allocated. */
    method SetSrcIpMax(ip: Word32, srcIpMin: Word32)
      requires Valid()
      modifies `haveTables, `flows, `perFlowRx, `perFlowTx, `endIp
      ensures Valid() && haveTables && endIp == ip
      ensures flows == if old(haveTables) then old(flows) else (ip - srcIpMin + 1) % WORD32
      ensures Covers() <==> ip == 0 || ip < startIp || ip - startIp < flows
      ensures !old(haveTables) && srcIpMin <= ip && !(srcIpMin == 0 && ip == WORD32 - 1) ==>
        (Covers() <==> ip == 0 || srcIpMin <= startIp)
      ensures !old(haveTables) && startIp == srcIpMin ==> (Covers() <==> !(srcIpMin == 0 && ip == WORD32 - 1))
    {
      SetIpPktCounters((ip - srcIpMin + 1) % WORD32);
      endIp := ip;
    }

    /** store_packet_cnt: addresses outside the range, and 0, are not counted.  The only thing asked of
        the caller is that an address which is counted has an entry. */
    method StorePacketCnt(ip: Word32, pid: nat, qid: nat, isTx: bool) returns (stored: bool)
      requires Valid() && Storable(ip) && pid < MAX_PORTS && qid < MAX_QUEUES
      modifies `rxQid, `txQid, `perFlowRx, `perFlowTx
      ensures Valid() && Covers() == old(Covers()) && (stored <==> ip != 0 && startIp <= ip <= endIp)
      ensures if stored && !isTx
        then rxQid == Bump(old(rxQid), pid, qid) && perFlowRx == Bump(old(perFlowRx), qid, ip - startIp)
        else rxQid == old(rxQid) && perFlowRx == old(perFlowRx)
      ensures if stored && isTx
        then txQid == Bump(old(txQid), pid, qid) && perFlowTx == Bump(old(perFlowTx), qid, ip - startIp)
        else txQid == old(txQid) && perFlowTx == old(perFlowTx)
    {
      if ip == 0 {
        return false;
      }
      if ip > endIp || ip < startIp {
        return false;
      }
      if !isTx {
        BumpBoth(rxQid, perFlowRx, pid, qid, ip - startIp);
        rxQid := Bump(rxQid, pid, qid);
        perFlowRx := Bump(perFlowRx, qid, ip - startIp);
      } else {
        BumpBoth(txQid, perFlowTx, pid, qid, ip - startIp);
        txQid := Bump(txQid, pid, qid);
        perFlowTx := Bump(perFlowTx, qid, ip - startIp);
      }
      stored := true;
    }
  }
}
