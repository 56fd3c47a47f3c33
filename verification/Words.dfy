/** 32-bit words as the C operators see them: lists of bits, most significant bit first.  In this
    form the big-endian word in memory is its four bytes one after the other. */
module Words {

  type Word = w: seq<bool> | |w| == 32
    witness [
      false, false, false, false, false, false, false, false,
      false, false, false, false, false, false, false, false,
      false, false, false, false, false, false, false, false,
      false, false, false, false, false, false, false, false]

  type Byte = b: seq<bool> | |b| == 8
    witness [false, false, false, false, false, false, false, false]

  function Zero(): Word {
    seq(32, _ => false)
  }

  function And(a: Word, b: Word): Word {
    seq(32, j requires 0 <= j < 32 => a[j] && b[j])
  }

  function Or(a: Word, b: Word): Word {
    seq(32, j requires 0 <= j < 32 => a[j] || b[j])
  }

  function Not(a: Word): Word {
    seq(32, j requires 0 <= j < 32 => !a[j])
  }

  /** a << p */
  function Shl(a: Word, p: nat): Word
    requires p <= 32
  {
    a[p..] + seq(p, _ => false)
  }

  /** a >> 1 */
  function Shr1(a: Word): Word {
    [false] + a[..31]
  }

  /** 1 << k */
  function One(k: nat): Word
    requires k < 32
  {
    Zero()[31 - k := true]
  }

  /** The usual test of a word with a one-bit mask. */
  lemma TestBit(a: Word, k: nat)
    requires k < 32
    ensures And(a, One(k)) != Zero() <==> a[31 - k]
  {
    var both := And(a, One(k));
    assert both[31 - k] == a[31 - k];
    if !a[31 - k] {
      assert both == Zero();
    }
  }

  lemma NoBitsIsZero(a: Word)
    requires forall j :: 0 <= j < 32 ==> !a[j]
    ensures a == Zero()
  {
  }
}
