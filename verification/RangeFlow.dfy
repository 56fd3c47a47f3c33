/** Range packets (pktgen/app/pktgen-range.c): header fields stepped within [min, max] from packet to
    packet, in machine arithmetic. */
module RangeFlow {
  import opened Arith

  const WORD16: nat := 0x1_0000
  const WORD32: nat := 0x1_0000_0000
  const WORD48: nat := 0x1_0000_0000_0000
  const WORD64: nat := 0x1_0000_0000_0000_0000

  /** The settings of one field.  An increment of zero means: always `start`. */
  datatype Field = Field(start: nat, min: nat, max: nat, inc: nat)

  predicate Fits(f: Field, m: nat) {
    f.start < m && f.min < m && f.max < m && f.inc < m
  }

  /** The value after v, computed modulo m. */
  function Step(f: Field, m: nat, v: nat): nat
    requires m > 0
  {
    if f.inc == 0 then f.start
    else
      var p := (v + f.inc) % m;
      if p < f.min then f.max else if p > f.max then f.min else p
  }

  /** The value n packets after v. */
  function Nth(f: Field, m: nat, v: nat, n: nat): nat
    requires m > 0
  {
    if n == 0 then v else Step(f, m, Nth(f, m, v, n - 1))
  }

  /** One step leads into the range from anywhere, provided the range is one. */
  lemma StepInRange(f: Field, m: nat, v: nat)
    requires m > 0 && f.inc > 0
    ensures f.min <= Step(f, m, v) <= f.max <==> f.min <= f.max
  {
    assert Step(f, m, v) == f.max || Step(f, m, v) == f.min || f.min <= Step(f, m, v) <= f.max;
  }

  /** How many values stepping up from min meets before it exceeds max. */
  function Length(f: Field): (l: nat)
    requires f.inc > 0 && f.min <= f.max
    ensures l > 0 && f.min + (l - 1) * f.inc <= f.max < f.min + (l - 1) * f.inc + f.inc
  {
    (f.max - f.min) / f.inc + 1
  }

  /** The last value met. */
  function Top(f: Field): nat
    requires f.inc > 0 && f.min <= f.max
  {
    f.min + (Length(f) - 1) * f.inc
  }

  /** Stepping on from the last value does not wrap around the machine word, or wraps to min itself, or
      the range is a single value. */
  predicate Closes(f: Field, m: nat)
    requires f.inc > 0 && f.min <= f.max
  {
    Top(f) + f.inc < m || Top(f) + f.inc - m == f.min || f.min == f.max
  }

  lemma StepBelowTop(f: Field, m: nat, j: nat)
    requires Fits(f, m) && f.inc > 0 && f.min <= f.max && j + 1 < Length(f)
    ensures Step(f, m, f.min + j * f.inc) == f.min + (j + 1) * f.inc
  {
    MulMono(j + 1, Length(f) - 1, f.inc);
    assert (j + 1) * f.inc == j * f.inc + f.inc;
    SmallMod(f.min + j * f.inc + f.inc, m);
  }

  lemma SmallMod(a: nat, m: nat)
    requires a < m
    ensures a % m == a
  {
  }

  lemma StepAtTop(f: Field, m: nat)
    requires Fits(f, m) && f.inc > 0 && f.min <= f.max
    ensures Step(f, m, Top(f)) == f.min <==> Closes(f, m)
  {
    var p := Top(f) + f.inc;
    if p < m {
      SmallMod(p, m);
    } else {
      RemainderIs(p, m, 1);
      assert p % m == p - m < f.max || f.min == f.max;
    }
  }

  lemma NextMod(n: nat, l: nat)
    requires l > 0
    ensures (n + 1) % l == if n % l + 1 == l then 0 else n % l + 1
  {
    var q := n / l;
    assert n == l * q + n % l;
    if n % l + 1 == l {
      assert (q + 1) * l == l * q + l;
      RemainderIs(n + 1, l, q + 1);
    } else {
      assert q * l == l * q;
      RemainderIs(n + 1, l, q);
    }
  }

  /** The value after number r of the round. */
  lemma StepInRound(f: Field, m: nat, r: nat)
    requires Fits(f, m) && f.inc > 0 && f.min <= f.max && Closes(f, m) && r < Length(f)
    ensures Step(f, m, f.min + r * f.inc) == f.min + (if r + 1 == Length(f) then 0 else r + 1) * f.inc
  {
    if r + 1 == Length(f) {
      StepAtTop(f, m);
    } else {
      StepBelowTop(f, m, r);
    }
  }

  lemma {:induction false} RoundStep(f: Field, m: nat, n: nat)
    requires Fits(f, m) && f.inc > 0 && f.min <= f.max && Closes(f, m)
    ensures Nth(f, m, f.min, n) == f.min + (n % Length(f)) * f.inc
  {
    var l := Length(f);
    if n == 0 {
      SmallMod(0, l);
    } else {
      hide Step;
      RoundStep(f, m, n - 1);
      NextMod(n - 1, l);
      StepInRound(f, m, (n - 1) % l);
    }
  }

  lemma {:induction false} FirstRound(f: Field, m: nat, n: nat)
    requires Fits(f, m) && f.inc > 0 && f.min <= f.max && n < Length(f)
    ensures Nth(f, m, f.min, n) == f.min + n * f.inc
  {
    if n > 0 {
      FirstRound(f, m, n - 1);
      StepBelowTop(f, m, n - 1);
    }
  }

  /** Starting at min, the n-th value is the one a plain counter modulo Length gives - for all n exactly
      when the range closes within the machine word. */
  lemma ClosedForm(f: Field, m: nat)
    requires Fits(f, m) && f.inc > 0 && f.min <= f.max
    ensures Closes(f, m) <==> forall n: nat :: Nth(f, m, f.min, n) == f.min + (n % Length(f)) * f.inc
  {
    var l := Length(f);
    if Closes(f, m) {
      forall n: nat ensures Nth(f, m, f.min, n) == f.min + (n % l) * f.inc {
        RoundStep(f, m, n);
      }
    } else {
      FirstRound(f, m, l - 1);
      StepAtTop(f, m);
      RemainderIs(l, l, 1);
      assert Nth(f, m, f.min, l) == Step(f, m, Top(f)) != f.min;
    }
  }

  /** Fields of at most 16 bits that are stepped in 32-bit arithmetic always close. */
  lemma WidenedCloses(f: Field)
    requires Fits(f, WORD16) && f.inc > 0 && f.min <= f.max
    ensures Closes(f, WORD32)
  {
  }

  /** So do MAC addresses, stepped in 64 bits, and no value loses bits when written back as an address. */
  lemma MacCloses(f: Field, v: nat)
    requires Fits(f, WORD48) && f.inc > 0 && f.min <= f.max
    ensures Closes(f, WORD64) && Mac(Step(f, WORD64, v)) == Step(f, WORD64, v)
  {
    StepInRange(f, WORD64, v);
    SmallMod(Step(f, WORD64, v), WORD48);
  }

  /** inet_h64tom: six bytes of a 64-bit number. */
  function Mac(v: nat): nat {
    v % WORD48
  }

  /** Any Length consecutive packets carry each value of the range once: `at` is the one packet from
      number k on that carries value number j. */
  lemma OncePerRound(f: Field, m: nat, k: nat, j: nat) returns (at: nat)
    requires Fits(f, m) && f.inc > 0 && f.min <= f.max && Closes(f, m) && j < Length(f)
    ensures k <= at < k + Length(f) && Nth(f, m, f.min, at) == f.min + j * f.inc
    ensures forall n :: k <= n < k + Length(f) && Nth(f, m, f.min, n) == f.min + j * f.inc ==> n == at
  {
    var l := Length(f);
    at := InWindow(k, l, j);
    RoundStep(f, m, at);
    forall n: nat | k <= n < k + l && Nth(f, m, f.min, n) == f.min + j * f.inc ensures n == at {
      RoundStep(f, m, n);
      SameProduct(n % l, j, f.inc);
      SameInWindow(n, at, l);
    }
  }

  /** With an increment of one, every address of the range is such a value. */
  lemma EachAddressOnce(f: Field, m: nat, k: nat, a: nat) returns (at: nat)
    requires Fits(f, m) && f.inc == 1 && f.min <= a <= f.max && Closes(f, m)
    ensures k <= at < k + (f.max - f.min + 1) && Nth(f, m, f.min, at) == a
    ensures forall n :: k <= n < k + (f.max - f.min + 1) && Nth(f, m, f.min, n) == a ==> n == at
  {
    at := OncePerRound(f, m, k, a - f.min);
  }

  lemma SameProduct(a: nat, b: nat, d: nat)
    requires d > 0 && a * d == b * d
    ensures a == b
  {
    if a < b {
      MulMono(a + 1, b, d);
    } else if b < a {
      MulMono(b + 1, a, d);
    }
  }

  lemma InWindow(k: nat, l: nat, j: nat) returns (at: nat)
    requires j < l
    ensures k <= at < k + l && at % l == j
  {
    var q, r := k / l, k % l;
    assert k == l * q + r && l * q == q * l;
    if j >= r {
      at := k + (j - r);
      RemainderIs(at, l, q);
    } else {
      at := k + (j + l - r);
      assert (q + 1) * l == q * l + l;
      RemainderIs(at, l, q + 1);
    }
  }

  lemma SameInWindow(a: nat, b: nat, l: nat)
    requires l > 0 && a % l == b % l && a < b + l && b < a + l
    ensures a == b
  {
    if a < b {
      Apart(a, b, l);
    } else if b < a {
      Apart(b, a, l);
    }
  }

  lemma Apart(a: nat, b: nat, l: nat)
    requires l > 0 && a % l == b % l && a < b
    ensures a + l <= b
  {
    var p, q := a / l, b / l;
    assert a == l * p + a % l && b == l * q + b % l;
    if q <= p {
      MulMono(q, p, l);
    } else {
      MulMono(p + 1, q, l);
    }
  }

  // ----- VLAN id -----

  const MIN_VLAN_ID: nat := 1

  /** The VLAN id is stepped from 0 instead of MIN_VLAN_ID once in the life of the program. */
  function VlanBase(v: nat, done: bool): nat {
    if v == MIN_VLAN_ID && !done then 0 else v
  }

  /** That special first step delivers the smallest id, as it means to, exactly if the increment equals
      the minimum, or exceeds the maximum, or there is only one id. */
  lemma FirstVlan(f: Field)
    requires Fits(f, WORD16) && f.inc > 0 && f.min <= f.max
    ensures Step(f, WORD32, VlanBase(MIN_VLAN_ID, false)) == f.min <==>
      f.inc == f.min || f.inc > f.max || f.min == f.max
  {
    SmallMod(f.inc, WORD32);
  }

  // ----- the constructor of range packets -----

  const GTPU_PORT: nat := 2152

  datatype RangeInfo = RangeInfo(
    teid: Field, sport: Field, dport: Field, src: Field, dst: Field,
    vlan: Field, cos: Field, tos: Field, size: Field, srcMac: Field, dstMac: Field)
  {
    predicate Ok() {
      Fits(teid, WORD32) && Fits(src, WORD32) && Fits(dst, WORD32) &&
      Fits(sport, WORD16) && Fits(dport, WORD16) && Fits(vlan, WORD16) && Fits(size, WORD16) &&
      Fits(cos, WORD16) && Fits(tos, WORD16) && Fits(srcMac, WORD64) && Fits(dstMac, WORD64)
    }
  }

  class RangePacket {
    const ipv4L4: bool  // an IPv4 packet that carries TCP or UDP
    var teid: nat
    var sport: nat
    var dport: nat
    var src: nat
    var dst: nat
    var vlan: nat
    var cos: nat
    var tos: nat
    var size: nat
    var srcMac: nat
    var dstMac: nat
  }

  /** The function-level statics of pktgen_range_ctor, and the function. */
  class RangeCtor {
    var minVlanSet: bool
    var minCosSet: bool
    var minTosSet: bool

    /** The code every field goes through if its increment is not zero.  For ports and TEID the second
        test is not an `else`, which makes no difference. */
    method Advance(f: Field, m: nat, v: nat) returns (p: nat)
      requires m > 0 && f.inc != 0
      ensures p == Step(f, m, v)
    {
      p := (v + f.inc) % m;
      if p < f.min {
        p := f.max;
      }
      if p > f.max {
        p := f.min;
      }
    }

    method AdvanceOrStart(f: Field, m: nat, v: nat) returns (p: nat)
      requires m > 0
      ensures p == Step(f, m, v)
    {
      if f.inc != 0 {
        p := Advance(f, m, v);
      } else {
        p := f.start;
      }
    }

    method AdvanceVlan(f: Field, v: nat) returns (p: nat)
      modifies `minVlanSet
      ensures p == if f.inc == 0 then f.start else Step(f, WORD32, VlanBase(v, old(minVlanSet)))
      ensures minVlanSet == (old(minVlanSet) || (f.inc != 0 && v == MIN_VLAN_ID))
    {
      if f.inc != 0 {
        if v == MIN_VLAN_ID && !minVlanSet {
          p := 0;
          minVlanSet := true;
        } else {
          p := v;
        }
        p := Advance(f, WORD32, p);
      } else {
        p := f.start;
      }
    }

    /** Class of service: here the smallest value is 0, so the same precaution changes nothing. */
    method AdvanceCos(f: Field, v: nat) returns (p: nat)
      modifies `minCosSet
      ensures p == Step(f, WORD32, v)
    {
      if f.inc != 0 {
        if v == 0 && !minCosSet {
          p := 0;
          minCosSet := true;
        } else {
          p := v;
        }
        p := Advance(f, WORD32, p);
      } else {
        p := f.start;
      }
    }

    method AdvanceTos(f: Field, v: nat) returns (p: nat)
      modifies `minTosSet
      ensures p == Step(f, WORD32, v)
    {
      if f.inc != 0 {
        if v == 0 && !minTosSet {
          p := 0;
          minTosSet := true;
        } else {
          p := v;
        }
        p := Advance(f, WORD32, p);
      } else {
        p := f.start;
      }
    }

    /** The first part of pktgen_range_ctor: tunnel id, ports and addresses. */
    method ConstructFlow(range: RangeInfo, pkt: RangePacket)
      modifies pkt`teid, pkt`sport, pkt`dport, pkt`src, pkt`dst
      ensures pkt.teid == if old(pkt.dport) == GTPU_PORT then Step(range.teid, WORD32, old(pkt.teid)) else old(pkt.teid)
      ensures pkt.sport == Step(range.sport, WORD16, old(pkt.sport))
      ensures pkt.dport == Step(range.dport, WORD16, old(pkt.dport))
      ensures pkt.src == Step(range.src, WORD32, old(pkt.src))
      ensures pkt.dst == Step(range.dst, WORD32, old(pkt.dst))
    {
      hide Step;
      if pkt.dport == GTPU_PORT {
        pkt.teid := AdvanceOrStart(range.teid, WORD32, pkt.teid);
      }
      pkt.sport := AdvanceOrStart(range.sport, WORD16, pkt.sport);
      pkt.dport := AdvanceOrStart(range.dport, WORD16, pkt.dport);
      pkt.src := AdvanceOrStart(range.src, WORD32, pkt.src);
      pkt.dst := AdvanceOrStart(range.dst, WORD32, pkt.dst);
    }

    /** Its last part: the two MAC addresses. */
    method ConstructMacs(range: RangeInfo, pkt: RangePacket)
      modifies pkt`srcMac, pkt`dstMac
      ensures pkt.srcMac == Mac(Step(range.srcMac, WORD64, old(pkt.srcMac)))
      ensures pkt.dstMac == Mac(Step(range.dstMac, WORD64, old(pkt.dstMac)))
    {
      hide Step;
      var mac := AdvanceOrStart(range.srcMac, WORD64, pkt.srcMac);
      pkt.srcMac := Mac(mac);
      mac := AdvanceOrStart(range.dstMac, WORD64, pkt.dstMac);
      pkt.dstMac := Mac(mac);
    }

    /** pktgen_range_ctor. */
    method Construct(range: RangeInfo, pkt: RangePacket)
      requires range.Ok()
      modifies this, pkt
      ensures !pkt.ipv4L4 ==> unchanged(pkt) && unchanged(this)
      ensures pkt.ipv4L4 ==>
        pkt.teid == (if old(pkt.dport) == GTPU_PORT then Step(range.teid, WORD32, old(pkt.teid)) else old(pkt.teid)) &&
        pkt.sport == Step(range.sport, WORD16, old(pkt.sport)) &&
        pkt.dport == Step(range.dport, WORD16, old(pkt.dport)) &&
        pkt.src == Step(range.src, WORD32, old(pkt.src)) &&
        pkt.dst == Step(range.dst, WORD32, old(pkt.dst)) &&
        pkt.vlan == (if range.vlan.inc == 0 then range.vlan.start
                     else Step(range.vlan, WORD32, VlanBase(old(pkt.vlan), old(minVlanSet)))) &&
        pkt.cos == Step(range.cos, WORD32, old(pkt.cos)) &&
        pkt.tos == Step(range.tos, WORD32, old(pkt.tos)) &&
        pkt.size == Step(range.size, WORD32, old(pkt.size)) &&
        pkt.srcMac == Mac(Step(range.srcMac, WORD64, old(pkt.srcMac))) &&
        pkt.dstMac == Mac(Step(range.dstMac, WORD64, old(pkt.dstMac)))
    {
      if pkt.ipv4L4 {
        hide Step;
        ConstructFlow(range, pkt);
        pkt.vlan := AdvanceVlan(range.vlan, pkt.vlan);
        pkt.cos := AdvanceCos(range.cos, pkt.cos);
        pkt.tos := AdvanceTos(range.tos, pkt.tos);
        pkt.size := AdvanceOrStart(range.size, WORD32, pkt.size);
        ConstructMacs(range, pkt);
      }
    }
  }
}
