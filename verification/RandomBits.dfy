/** Random bitfields (pktgen/app/pktgen-random.c, pktgen/app/pktgen-cmds.c): a table of mask
    specifications, their parser and printer, and the loop that applies them to packets. */
module RandomBits {
  import opened Arith
  import opened Words

  const MAX_RND_BITFIELDS: nat := 32
  const MAX_BITFIELD_SIZE: nat := 32

  /** One entry of the table.  The original keeps the masks in network order and applies them to
      packet memory; here they are in host order and applied to the big-endian word of the
      packet's bytes, which is the same. */
  datatype Spec = Spec(offset: Octet, andMask: Word, orMask: Word, rndMask: Word)

  // ----- masks as text -----

  predicate LegalChar(c: char) {
    c == '0' || c == '1' || c == '.' || c == 'x' || c == 'X'
  }

  predicate Legal(mask: string) {
    |mask| <= MAX_BITFIELD_SIZE && forall i :: 0 <= i < |mask| ==> LegalChar(mask[i])
  }

  /** The letter a mask has for bit j, with random bits in upper case and '.' behind its end. */
  function Letter(mask: string, j: nat): char {
    if j >= |mask| then '.' else if mask[j] == 'x' then 'X' else mask[j]
  }

  /** What the three masks of a spec mean: 0 and random bits are cleared, 1 bits set, random bits
      filtered. */
  ghost predicate Encodes(s: Spec, mask: string) {
    forall j :: 0 <= j < 32 ==>
      (s.andMask[j] <==> Letter(mask, j) != '0' && Letter(mask, j) != 'X') &&
      (s.orMask[j] <==> Letter(mask, j) == '1') &&
      (s.rndMask[j] <==> Letter(mask, j) == 'X')
  }

  /** No bit is asked to be two of 0, 1 and random. */
  predicate WellFormed(s: Spec) {
    forall j :: 0 <= j < 32 ==> (s.orMask[j] ==> s.andMask[j]) && (s.rndMask[j] ==> !s.andMask[j])
  }

  /** The last |mask| bits of w are those for which the mask says c; the others are zero. */
  ghost predicate Pending(w: Word, mask: string, c: char) {
    |mask| <= 32 &&
    forall j :: 0 <= j < 32 ==> (w[j] <==> j >= 32 - |mask| && Letter(mask, j - (32 - |mask|)) == c)
  }

  /** One round of the parsing loop on one mask: shift, and add one for a new bit. */
  function Push(w: Word, one: bool): Word {
    var shifted := Shl(w, 1);
    if one then shifted[31 := true] else shifted
  }

  /** The parsing loop of pktgen_set_random_bitfield, up to the final shift of the masks. */
  method ParseMask(mask: string) returns (ok: bool, mask0: Word, mask1: Word, maskRnd: Word)
    requires 0 < |mask| <= MAX_BITFIELD_SIZE
    ensures ok <==> Legal(mask)
    ensures ok ==> forall j :: 0 <= j < 32 ==>
      (mask0[j] <==> Letter(mask, j) == '0') &&
      (mask1[j] <==> Letter(mask, j) == '1') &&
      (maskRnd[j] <==> Letter(mask, j) == 'X')
  {
    ok, mask0, mask1, maskRnd := true, Zero(), Zero(), Zero();
    var i := 0;
    while i < |mask|
      invariant i <= |mask|
      invariant forall k :: 0 <= k < i ==> LegalChar(mask[k])
      invariant Pending(mask0, mask[..i], '0') && Pending(mask1, mask[..i], '1') && Pending(maskRnd, mask[..i], 'X')
    {
      if !LegalChar(mask[i]) {
        return false, mask0, mask1, maskRnd;
      }
      PushPending(mask0, mask[..i], mask[i], '0');
      PushPending(mask1, mask[..i], mask[i], '1');
      PushPending(maskRnd, mask[..i], mask[i], 'X');
      assert mask[..i] + [mask[i]] == mask[..i + 1];
      mask0 := Push(mask0, mask[i] == '0');
      mask1 := Push(mask1, mask[i] == '1');
      maskRnd := Push(maskRnd, mask[i] == 'x' || mask[i] == 'X');
      i := i + 1;
    }
    assert mask[..i] == mask;
    var pad := MAX_BITFIELD_SIZE - |mask|;
    mask0, mask1, maskRnd := Shl(mask0, pad), Shl(mask1, pad), Shl(maskRnd, pad);
  }

  lemma PushPending(w: Word, mask: string, ch: char, c: char)
    requires Pending(w, mask, c) && |mask| < 32
    ensures Pending(Push(w, Letter([ch], 0) == c), mask + [ch], c)
  {
  }

  // ----- the table -----

  /** Spec number k is in use. */
  predicate Active(active: Word, k: nat)
    requires k < 32
  {
    active[31 - k]
  }

  class RndBits {
    var active: Word
    const specs: array<Spec>

    ghost predicate Valid()
      reads this, specs
    {
      specs.Length == MAX_RND_BITFIELDS &&
      forall k :: 0 <= k < MAX_RND_BITFIELDS && Active(active, k) ==> WellFormed(specs[k])
    }

    /** pktgen_rnd_bits_init.  The original means to start from masks that ignore every bit, but
        its 32 '?' are no legal mask: the masks stay all zero. */
    constructor ()
      ensures Valid() && fresh(specs)
      ensures active == Zero()
      ensures forall k :: 0 <= k < MAX_RND_BITFIELDS ==> specs[k] == Spec(0, Zero(), Zero(), Zero())
    {
      active := Zero();
      specs := new Spec[MAX_RND_BITFIELDS](_ => Spec(0, Zero(), Zero(), Zero()));
      new;
      var ignore := "????????????????????????????????";
      assert !LegalChar(ignore[0]);
      var i := 0;
      while i < MAX_RND_BITFIELDS
        invariant i <= MAX_RND_BITFIELDS
        invariant Valid() && fresh(specs) && active == Zero()
        invariant forall k :: 0 <= k < MAX_RND_BITFIELDS ==> specs[k] == Spec(0, Zero(), Zero(), Zero())
      {
        var r := Set(i, 0, ignore);
        r := Set(i, 0, "");
        assert active == Zero();
        i := i + 1;
      }
    }

    /** pktgen_set_random_bitfield.  A bad index, an over-long mask or an unknown character changes
        nothing; the empty mask switches the spec off; any other mask is stored and switched on. */
    method Set(idx: Octet, offset: Octet, mask: string) returns (r: Word)
      requires Valid()
      modifies this, specs
      ensures Valid() && r == active
      ensures idx >= MAX_RND_BITFIELDS || !Legal(mask) ==> active == old(active) && specs[..] == old(specs[..])
      ensures idx < MAX_RND_BITFIELDS && Legal(mask) ==>
        active == old(active)[31 - idx := mask != ""] &&
        (forall k :: 0 <= k < MAX_RND_BITFIELDS && k != idx ==> specs[k] == old(specs[k])) &&
        (if mask == "" then specs[idx] == old(specs[idx]) else specs[idx].offset == offset && Encodes(specs[idx], mask))
    {
      if idx >= MAX_RND_BITFIELDS || |mask| > MAX_BITFIELD_SIZE {
        return active;
      }
      if |mask| == 0 {
        active := And(active, Not(One(idx)));
        return active;
      }
      var ok, mask0, mask1, maskRnd := ParseMask(mask);
      if !ok {
        return active;
      }
      active := Or(active, One(idx));
      specs[idx] := Spec(offset, Not(Or(mask0, maskRnd)), mask1, maskRnd);
      r := active;
    }
  }

  // ----- printing -----

  /** The letter printed for bit j: random bits must be looked at first, for their and-bit is 0. */
  function PrintedLetter(s: Spec, j: nat): char
    requires j < 32
  {
    if s.rndMask[j] then 'X' else if !s.andMask[j] then '0' else if s.orMask[j] then '1' else '.'
  }

  function Printed(s: Spec): string {
    seq(32, j requires 0 <= j < 32 => PrintedLetter(s, j))
  }

  /** convert_bitfield */
  method ConvertBitfield(bf: Spec) returns (text: string)
    ensures text == Printed(bf)
  {
    var buffer := new char[MAX_BITFIELD_SIZE](_ => '.');
    var i := 0;
    while i < MAX_BITFIELD_SIZE
      invariant i <= MAX_BITFIELD_SIZE == buffer.Length
      invariant forall j :: 0 <= j < i ==> buffer[j] == PrintedLetter(bf, j)
    {
      var k := MAX_BITFIELD_SIZE - i - 1;
      TestBit(bf.rndMask, k);
      TestBit(bf.andMask, k);
      TestBit(bf.orMask, k);
      var mask := One(k);
      buffer[i] :=
        if And(bf.rndMask, mask) != Zero() then 'X'
        else if And(bf.andMask, mask) == Zero() then '0'
        else if And(bf.orMask, mask) != Zero() then '1' else '.';
      i := i + 1;
    }
    text := buffer[..];
  }

  /** Printing what was parsed gives the mask back, x in upper case and padded with '.'. */
  lemma PrintOfParsed(s: Spec, mask: string)
    requires Legal(mask) && Encodes(s, mask)
    ensures |Printed(s)| == 32 && forall j :: 0 <= j < 32 ==> Printed(s)[j] == Letter(mask, j)
  {
    forall j | 0 <= j < 32 ensures Printed(s)[j] == Letter(mask, j) {
      assert j < |mask| ==> LegalChar(mask[j]);
    }
  }

  /** Printed masks are legal, and parsing one back gives the same three masks exactly when they were
      well formed. */
  lemma ParseOfPrinted(s: Spec, t: Spec)
    requires Encodes(t, Printed(s))
    ensures Legal(Printed(s))
    ensures (t.andMask == s.andMask && t.orMask == s.orMask && t.rndMask == s.rndMask) <==> WellFormed(s)
  {
    assert forall j :: 0 <= j < 32 ==> Letter(Printed(s), j) == PrintedLetter(s, j);
    assert WellFormed(t);
    if WellFormed(s) {
      assert t.andMask == s.andMask;
      assert t.orMask == s.orMask;
      assert t.rndMask == s.rndMask;
    }
  }

  /** So a spec that was never set prints as 32 zeros, not as the ignored bits it was meant to have. */
  lemma UnsetPrintsZeros()
    ensures Printed(Spec(0, Zero(), Zero(), Zero())) == seq(32, _ => '0')
  {
    var zeros := seq(32, _ => '0');
    assert forall j :: 0 <= j < 32 ==> Printed(Spec(0, Zero(), Zero(), Zero()))[j] == zeros[j];
  }

  // ----- applying specs to packets -----

  /** Every packet buffer has room for the furthest window a spec can name. */
  const MIN_ROOM: nat := 259

  function Load(data: seq<Byte>, o: nat): Word
    requires o + 4 <= |data|
  {
    var b0: seq<bool>, b1: seq<bool>, b2: seq<bool>, b3: seq<bool> := data[o], data[o + 1], data[o + 2], data[o + 3];
    b0 + b1 + b2 + b3
  }

  function Store(data: seq<Byte>, o: nat, w: Word): (r: seq<Byte>)
    requires o + 4 <= |data|
    ensures |r| == |data|
  {
    data[o := w[0..8]][o + 1 := w[8..16]][o + 2 := w[16..24]][o + 3 := w[24..32]]
  }

  /** The word a spec makes of a packet's word and a random value. */
  function Masked(w: Word, s: Spec, random: Word): Word {
    var fixed := Or(And(w, s.andMask), s.orMask);
    if s.rndMask != Zero() then Or(fixed, And(random, s.rndMask)) else fixed
  }

  function ApplySpec(data: seq<Byte>, s: Spec, random: Word): (r: seq<Byte>)
    requires |data| >= MIN_ROOM
    ensures |r| == |data|
  {
    Store(data, s.offset, Masked(Load(data, s.offset), s, random))
  }

  /** Bit i of a packet, counted from its start. */
  function PacketBit(data: seq<Byte>, i: nat): bool
    requires i < 8 * |data|
  {
    data[i / 8][i % 8]
  }

  /** Bit i lies in the window of s. */
  predicate Covers(s: Spec, i: nat) {
    8 * s.offset <= i < 8 * s.offset + 32
  }

  /** What a spec wants a bit to be. */
  datatype Verdict = Ignore | Fix(bit: bool) | Random

  function VerdictOf(s: Spec, i: nat): Verdict {
    if !Covers(s, i) then Ignore
    else
      var j := i - 8 * s.offset;
      if s.rndMask[j] then Random
      else if !s.andMask[j] then Fix(false)
      else if s.orMask[j] then Fix(true)
      else Ignore
  }

  lemma LoadBit(data: seq<Byte>, o: nat, j: nat)
    requires o + 4 <= |data| && j < 32
    ensures Load(data, o)[j] == PacketBit(data, 8 * o + j)
  {
    assert (8 * o + j) / 8 == o + j / 8 && (8 * o + j) % 8 == j % 8;
  }

  lemma StoreBit(data: seq<Byte>, o: nat, w: Word, i: nat)
    requires o + 4 <= |data| && i < 8 * |data|
    ensures PacketBit(Store(data, o, w), i) == if 8 * o <= i < 8 * o + 32 then w[i - 8 * o] else PacketBit(data, i)
  {
    var b := i / 8;
    if o <= b < o + 4 {
      assert i - 8 * o == 8 * (b - o) + i % 8;
    }
  }

  /** One spec on one packet, bit by bit. */
  lemma ApplySpecBit(data: seq<Byte>, s: Spec, random: Word, i: nat)
    requires |data| >= MIN_ROOM && WellFormed(s) && i < 8 * |data|
    ensures PacketBit(ApplySpec(data, s, random), i) == BitAfter(s, PacketBit(data, i), random, i)
  {
    var w := Masked(Load(data, s.offset), s, random);
    StoreBit(data, s.offset, w, i);
    if Covers(s, i) {
      var j := i - 8 * s.offset;
      LoadBit(data, s.offset, j);
      if s.rndMask[j] {
        assert s.rndMask != Zero();
      }
    }
  }

  /** A table as the apply loop sees it. */
  ghost predicate Usable(active: Word, specs: seq<Spec>) {
    |specs| == MAX_RND_BITFIELDS &&
    forall k :: 0 <= k < MAX_RND_BITFIELDS && Active(active, k) ==> WellFormed(specs[k])
  }

  /** How many random values the specs before k draw for one packet. */
  function Draws(active: Word, specs: seq<Spec>, k: nat): nat
    requires |specs| == MAX_RND_BITFIELDS && k <= MAX_RND_BITFIELDS
  {
    if k == 0 then 0
    else Draws(active, specs, k - 1) + if Active(active, k - 1) && specs[k - 1].rndMask != Zero() then 1 else 0
  }

  /** A packet after the specs before k, when the next random value to be drawn is rnd(n). */
  function Applied(data: seq<Byte>, active: Word, specs: seq<Spec>, k: nat, rnd: nat -> Word, n: nat): (r: seq<Byte>)
    requires |data| >= MIN_ROOM && |specs| == MAX_RND_BITFIELDS && k <= MAX_RND_BITFIELDS
    ensures |r| == |data|
  {
    if k == 0 then data
    else
      var before := Applied(data, active, specs, k - 1, rnd, n);
      if Active(active, k - 1) then ApplySpec(before, specs[k - 1], Drawn(active, specs, k - 1, rnd, n)) else before
  }

  /** The last active spec before k that does not ignore bit i, if there is one (else -1). */
  function Decider(active: Word, specs: seq<Spec>, k: nat, i: nat): (d: int)
    requires |specs| == MAX_RND_BITFIELDS && k <= MAX_RND_BITFIELDS
    ensures -1 <= d < k
  {
    if k == 0 then -1
    else if Active(active, k - 1) && VerdictOf(specs[k - 1], i) != Ignore then k - 1
    else Decider(active, specs, k - 1, i)
  }

  lemma {:induction false} DeciderIsLast(active: Word, specs: seq<Spec>, k: nat, i: nat)
    requires |specs| == MAX_RND_BITFIELDS && k <= MAX_RND_BITFIELDS
    ensures var d := Decider(active, specs, k, i);
      (d >= 0 ==> Active(active, d) && VerdictOf(specs[d], i) != Ignore) &&
      forall m :: d < m < k && Active(active, m) ==> VerdictOf(specs[m], i) == Ignore
  {
    if k > 0 {
      DeciderIsLast(active, specs, k - 1, i);
    }
  }

  /** What spec s makes of bit i when it draws the given random value. */
  function BitAfter(s: Spec, before: bool, random: Word, i: nat): bool {
    match VerdictOf(s, i)
    case Ignore => before
    case Fix(bit) => bit
    case Random => random[i - 8 * s.offset]
  }

  /** The random value spec d draws for a packet. */
  function Drawn(active: Word, specs: seq<Spec>, d: nat, rnd: nat -> Word, n: nat): Word
    requires |specs| == MAX_RND_BITFIELDS && d <= MAX_RND_BITFIELDS
  {
    rnd(n + Draws(active, specs, d))
  }

  /** What the deciding spec makes of bit i. */
  function Decided(before: bool, active: Word, specs: seq<Spec>, k: nat, rnd: nat -> Word, n: nat, i: nat): bool
    requires |specs| == MAX_RND_BITFIELDS && k <= MAX_RND_BITFIELDS
  {
    var d := Decider(active, specs, k, i);
    if d < 0 then before else BitAfter(specs[d], before, Drawn(active, specs, d, rnd, n), i)
  }

  /** The meaning of a table: each packet bit is what the last active spec that names it says - 0, 1,
      or that spec's own random bit - and keeps its value if every spec ignores it. */
  lemma {:induction false} HighestSpecDecides(data: seq<Byte>, active: Word, specs: seq<Spec>, k: nat,
      rnd: nat -> Word, n: nat, i: nat)
    requires |data| >= MIN_ROOM && Usable(active, specs) && k <= MAX_RND_BITFIELDS && i < 8 * |data|
    ensures PacketBit(Applied(data, active, specs, k, rnd, n), i) ==
      Decided(PacketBit(data, i), active, specs, k, rnd, n, i)
  {
    if k > 0 {
      HighestSpecDecides(data, active, specs, k - 1, rnd, n, i);
      var before := Applied(data, active, specs, k - 1, rnd, n);
      if Active(active, k - 1) {
        var s, random := specs[k - 1], Drawn(active, specs, k - 1, rnd, n);
        ApplySpecBit(before, s, random, i);
        assert Applied(data, active, specs, k, rnd, n) == ApplySpec(before, s, random);
      } else {
        assert Applied(data, active, specs, k, rnd, n) == before;
      }
    }
  }

  lemma SamePacketBits(a: seq<Byte>, b: seq<Byte>)
    requires |a| == |b| && forall i :: 0 <= i < 8 * |a| ==> PacketBit(a, i) == PacketBit(b, i)
    ensures a == b
  {
    forall x | 0 <= x < |a| ensures a[x] == b[x] {
      forall y | 0 <= y < 8 ensures a[x][y] == b[x][y] {
        assert (8 * x + y) / 8 == x && (8 * x + y) % 8 == y;
        assert PacketBit(a, 8 * x + y) == PacketBit(b, 8 * x + y);
      }
    }
  }

  /** Applying a table again, with other random values, is as if it had been applied only then. */
  lemma Reapply(data: seq<Byte>, active: Word, specs: seq<Spec>, rnd: nat -> Word, n: nat, m: nat)
    requires |data| >= MIN_ROOM && Usable(active, specs)
    ensures Applied(Applied(data, active, specs, |specs|, rnd, n), active, specs, |specs|, rnd, m)
      == Applied(data, active, specs, |specs|, rnd, m)
  {
    var once := Applied(data, active, specs, |specs|, rnd, n);
    var twice, direct := Applied(once, active, specs, |specs|, rnd, m), Applied(data, active, specs, |specs|, rnd, m);
    forall i | 0 <= i < 8 * |data| ensures PacketBit(twice, i) == PacketBit(direct, i) {
      HighestSpecDecides(data, active, specs, |specs|, rnd, n, i);
      HighestSpecDecides(once, active, specs, |specs|, rnd, m, i);
      HighestSpecDecides(data, active, specs, |specs|, rnd, m, i);
    }
    SamePacketBits(twice, direct);
  }

  lemma {:induction false} InactiveRest(data: seq<Byte>, active: Word, specs: seq<Spec>, k: nat, to: nat,
      rnd: nat -> Word, n: nat)
    requires |data| >= MIN_ROOM && |specs| == MAX_RND_BITFIELDS && k <= to <= MAX_RND_BITFIELDS
    requires forall m :: k <= m < MAX_RND_BITFIELDS ==> !Active(active, m)
    ensures Applied(data, active, specs, to, rnd, n) == Applied(data, active, specs, k, rnd, n)
    ensures Draws(active, specs, to) == Draws(active, specs, k)
  {
    if k < to {
      InactiveRest(data, active, specs, k, to - 1, rnd, n);
    }
  }

  /** The active word after k right shifts. */
  ghost predicate Left(left: Word, active: Word, k: nat) {
    forall j :: 0 <= j < 32 ==> (left[j] <==> j >= k && active[j - k])
  }

  lemma NextLeft(left: Word, active: Word, k: nat)
    requires Left(left, active, k) && left != Zero()
    ensures k < 32 && Left(Shr1(left), active, k + 1)
    ensures And(left, One(0)) != Zero() <==> Active(active, k)
  {
    if k >= 32 {
      NoBitsIsZero(left);
    } else {
      TestBit(left, 0);
    }
  }

  lemma NothingLeft(left: Word, active: Word, k: nat)
    requires Left(left, active, k) && left == Zero()
    ensures forall m :: k <= m < 32 ==> !Active(active, m)
  {
    forall m | k <= m < 32 ensures !Active(active, m) {
      assert !left[31 - (m - k)];
    }
  }

  lemma AppliedStep(data: seq<Byte>, active: Word, specs: seq<Spec>, k: nat, rnd: nat -> Word, n: nat)
    requires |data| >= MIN_ROOM && |specs| == MAX_RND_BITFIELDS && k < MAX_RND_BITFIELDS
    ensures var now, drawn := Applied(data, active, specs, k, rnd, n), Draws(active, specs, k);
      Applied(data, active, specs, k + 1, rnd, n) ==
        (if Active(active, k) then ApplySpec(now, specs[k], rnd(n + drawn)) else now) &&
      Draws(active, specs, k + 1) == drawn + if Active(active, k) && specs[k].rndMask != Zero() then 1 else 0
  {
  }

  /** The masking of one packet word in place. */
  method ApplyWord(pkt: array<Byte>, s: Spec, rnd: nat -> Word, n: nat) returns (next: nat)
    requires pkt.Length >= MIN_ROOM
    modifies pkt
    ensures pkt[..] == ApplySpec(old(pkt[..]), s, rnd(n))
    ensures next == n + if s.rndMask != Zero() then 1 else 0
  {
    next := n;
    var w := Or(And(Load(pkt[..], s.offset), s.andMask), s.orMask);
    if s.rndMask != Zero() {
      w := Or(w, And(rnd(next), s.rndMask));
      next := next + 1;
    }
    pkt[s.offset], pkt[s.offset + 1] := w[0..8], w[8..16];
    pkt[s.offset + 2], pkt[s.offset + 3] := w[16..24], w[24..32];
  }

  /** The body of pktgen_rnd_bits_apply for one packet: walk the active bits from the right. */
  method ApplyToPacket(pkt: array<Byte>, active: Word, specs: seq<Spec>, rnd: nat -> Word, n: nat) returns (next: nat)
    requires pkt.Length >= MIN_ROOM && |specs| == MAX_RND_BITFIELDS
    modifies pkt
    ensures pkt[..] == Applied(old(pkt[..]), active, specs, |specs|, rnd, n)
    ensures next == n + Draws(active, specs, |specs|)
  {
    ghost var data := pkt[..];
    next := n;
    var left, k := active, 0;
    while left != Zero()
      invariant k <= 32 && Left(left, active, k)
      invariant pkt[..] == Applied(data, active, specs, k, rnd, n)
      invariant next == n + Draws(active, specs, k)
      decreases 32 - k
    {
      NextLeft(left, active, k);
      AppliedStep(data, active, specs, k, rnd, n);
      if And(left, One(0)) != Zero() {
        next := ApplyWord(pkt, specs[k], rnd, next);
      }
      k := k + 1;
      left := Shr1(left);
    }
    NothingLeft(left, active, k);
    InactiveRest(data, active, specs, k, |specs|, rnd, n);
  }

  /** Contents of the packets of a burst. */
  ghost function Contents(pkts: seq<array<Byte>>): (c: seq<seq<Byte>>)
    reads pkts
    ensures |c| == |pkts|
  {
    seq(|pkts|, i requires 0 <= i < |pkts| reads pkts => pkts[i][..])
  }

  ghost predicate Separate(pkts: seq<array<Byte>>) {
    (forall i :: 0 <= i < |pkts| ==> pkts[i].Length >= MIN_ROOM) &&
    forall i, j :: 0 <= i < j < |pkts| ==> pkts[i] != pkts[j]
  }

  /** pktgen_rnd_bits_apply on the packets from `first` on: each one draws its own values, packet i
      those from number starts[i] on. */
  method Apply(pkts: seq<array<Byte>>, first: nat, active: Word, specs: seq<Spec>, rnd: nat -> Word, n: nat)
    returns (next: nat, ghost starts: seq<nat>)
    requires Separate(pkts) && first <= |pkts| && |specs| == MAX_RND_BITFIELDS
    modifies pkts
    ensures forall i :: 0 <= i < first ==> pkts[i][..] == old(pkts[i][..])
    ensures |starts| == |pkts| && (first < |pkts| ==> starts[first] == n)
    ensures forall i :: first < i < |pkts| ==> starts[i] == starts[i - 1] + Draws(active, specs, |specs|)
    ensures forall i :: first <= i < |pkts| ==>
      pkts[i][..] == Applied(old(pkts[i][..]), active, specs, |specs|, rnd, starts[i])
  {
    starts := seq(first, _ => 0);
    var i := first;
    next := n;
    while i < |pkts|
      invariant first <= i <= |pkts| && |starts| == i
      invariant next == if i == first then n else starts[i - 1] + Draws(active, specs, |specs|)
      invariant i > first ==> starts[first] == n
      invariant forall k :: first < k < i ==> starts[k] == starts[k - 1] + Draws(active, specs, |specs|)
      invariant forall k :: 0 <= k < first || i <= k < |pkts| ==> pkts[k][..] == old(pkts[k][..])
      invariant forall k :: first <= k < i ==>
        pkts[k][..] == Applied(old(pkts[k][..]), active, specs, |specs|, rnd, starts[k])
    {
      starts := starts + [next];
      next := ApplyToPacket(pkts[i], active, specs, rnd, next);
      i := i + 1;
    }
  }

  /** Data with the table applied from the random value number m on, or untouched for negative m. */
  ghost function Touched(data: seq<Byte>, active: Word, specs: seq<Spec>, rnd: nat -> Word, m: int): seq<Byte>
    requires |data| >= MIN_ROOM && |specs| == MAX_RND_BITFIELDS
  {
    if m < 0 then data else Applied(data, active, specs, |specs|, rnd, m)
  }

  lemma TouchedAgain(data: seq<Byte>, active: Word, specs: seq<Spec>, rnd: nat -> Word, m: int, n: nat)
    requires |data| >= MIN_ROOM && Usable(active, specs)
    ensures var now := Touched(data, active, specs, rnd, m);
      |now| == |data| && Applied(now, active, specs, |specs|, rnd, n) == Touched(data, active, specs, rnd, n)
  {
    if m >= 0 {
      Reapply(data, active, specs, rnd, m, n);
    }
  }

  /** One round of _send_burst_random on the packets from `from` on: whatever random values they were
      given before (marks), they now are as if only given the new ones. */
  method ApplyAgain(pkts: seq<array<Byte>>, from: nat, active: Word, specs: seq<Spec>, rnd: nat -> Word, n: nat,
      ghost data: seq<seq<Byte>>, ghost marks: seq<int>)
    returns (next: nat, ghost starts: seq<nat>)
    requires Separate(pkts) && Usable(active, specs) && from <= |pkts| == |data| == |marks|
    requires forall i :: 0 <= i < |pkts| ==> |data[i]| >= MIN_ROOM
    requires forall i :: from <= i < |pkts| ==> pkts[i][..] == Touched(data[i], active, specs, rnd, marks[i])
    modifies pkts
    ensures |starts| == |pkts|
    ensures forall i :: from <= i < |pkts| ==> pkts[i][..] == Touched(data[i], active, specs, rnd, starts[i])
  {
    next, starts := Apply(pkts, from, active, specs, rnd, n);
    forall i | from <= i < |pkts| ensures pkts[i][..] == Touched(data[i], active, specs, rnd, starts[i]) {
      TouchedAgain(data[i], active, specs, rnd, marks[i], starts[i]);
    }
  }

  /** rte_eth_tx_burst: the device takes the first packets offered, as many as it likes. */
  method TxBurst(pkts: seq<array<Byte>>, from: nat, accept: nat) returns (taken: seq<seq<Byte>>)
    requires from <= |pkts|
    ensures |taken| == if accept < |pkts| - from then accept else |pkts| - from
    ensures forall k :: 0 <= k < |taken| ==> taken[k] == pkts[from + k][..]
  {
    taken := [];
    while |taken| < accept && from + |taken| < |pkts|
      invariant |taken| <= accept && from + |taken| <= |pkts|
      invariant forall k :: 0 <= k < |taken| ==> taken[k] == pkts[from + k][..]
    {
      taken := taken + [pkts[from + |taken|][..]];
    }
  }

  /** Packets out[0..] left as if the table had been applied once to the first packets of data. */
  ghost predicate LeftAsOnce(out: seq<seq<Byte>>, stamps: seq<nat>, data: seq<seq<Byte>>,
      active: Word, specs: seq<Spec>, rnd: nat -> Word)
    requires |specs| == MAX_RND_BITFIELDS && forall i :: 0 <= i < |data| ==> |data[i]| >= MIN_ROOM
  {
    |out| == |stamps| <= |data| &&
    forall i :: 0 <= i < |out| ==> out[i] == Applied(data[i], active, specs, |specs|, rnd, stamps[i])
  }

  lemma LeftMore(out: seq<seq<Byte>>, stamps: seq<nat>, taken: seq<seq<Byte>>, starts: seq<nat>,
      data: seq<seq<Byte>>, active: Word, specs: seq<Spec>, rnd: nat -> Word)
    requires |specs| == MAX_RND_BITFIELDS && forall i :: 0 <= i < |data| ==> |data[i]| >= MIN_ROOM
    requires LeftAsOnce(out, stamps, data, active, specs, rnd) && |out| + |taken| <= |data| == |starts|
    requires forall k :: 0 <= k < |taken| ==>
      taken[k] == Applied(data[|out| + k], active, specs, |specs|, rnd, starts[|out| + k])
    ensures LeftAsOnce(out + taken, stamps + starts[|out|..|out| + |taken|], data, active, specs, rnd)
  {
    var newer := starts[|out|..|out| + |taken|];
    forall i | 0 <= i < |out + taken|
      ensures (out + taken)[i] == Applied(data[i], active, specs, |specs|, rnd, (stamps + newer)[i])
    {
      if i >= |out| {
        assert (out + taken)[i] == taken[i - |out|] && (stamps + newer)[i] == starts[i];
      }
    }
  }

  /** How many packets a device takes out of `most` in tries that accept at most so many each. */
  function TakenInAll(accepts: seq<nat>, most: nat): nat {
    if accepts == [] then 0
    else
      var before := TakenInAll(accepts[..|accepts| - 1], most);
      if before + accepts[|accepts| - 1] < most then before + accepts[|accepts| - 1] else most
  }

  /** Nothing changes once everything is taken. */
  lemma {:induction false} AllTaken(accepts: seq<nat>, most: nat, k: nat)
    requires k <= |accepts| && (k == |accepts| || TakenInAll(accepts[..k], most) == most)
    ensures TakenInAll(accepts, most) == TakenInAll(accepts[..k], most)
    decreases |accepts| - k
  {
    if k == |accepts| {
      assert accepts[..k] == accepts;
    } else {
      assert accepts[..k + 1][..k] == accepts[..k];
      AllTaken(accepts, most, k + 1);
    }
  }

  /** _send_burst_random: the device takes any part of what is left, and the table is applied again
      before each retry.  Every packet still leaves as if the table had been applied to it once. */
  method SendBurstRandom(pkts: seq<array<Byte>>, active: Word, specs: seq<Spec>, rnd: nat -> Word, accepts: seq<nat>)
    returns (sent: seq<seq<Byte>>, ghost stamps: seq<nat>)
    requires Separate(pkts) && Usable(active, specs)
    modifies pkts
    ensures LeftAsOnce(sent, stamps, old(Contents(pkts)), active, specs, rnd)
    ensures |sent| == TakenInAll(accepts, |pkts|)
  {
    ghost var data := Contents(pkts);
    ghost var marks: seq<int> := seq(|pkts|, _ => -1);
    sent, stamps := [], [];
    var round, next := 0, 0;
    while |sent| < |pkts| && round < |accepts|
      invariant |sent| <= |pkts| == |marks| && LeftAsOnce(sent, stamps, data, active, specs, rnd)
      invariant round <= |accepts| && |sent| == TakenInAll(accepts[..round], |pkts|)
      invariant forall i :: |sent| <= i < |pkts| ==> pkts[i][..] == Touched(data[i], active, specs, rnd, marks[i])
    {
      ghost var starts: seq<nat>;
      next, starts := ApplyAgain(pkts, |sent|, active, specs, rnd, next, data, marks);
      var taken := TxBurst(pkts, |sent|, accepts[round]);
      LeftMore(sent, stamps, taken, starts, data, active, specs, rnd);
      stamps := stamps + starts[|sent|..|sent| + |taken|];
      sent, marks := sent + taken, starts;
      assert accepts[..round + 1][..round] == accepts[..round];
      round := round + 1;
    }
    AllTaken(accepts, |pkts|, round);
  }
}
