/** The Internet checksum (section 1 of RFC 1071). */
module Checksum {
  import opened Integers

  /** The bytes added up as big-endian 16-bit words; `odd` says that a high byte has gone before. */
  function WordSum(data: seq<byte>, odd: bool): nat {
    if data == [] then 0 else Weight(data[0], odd) + WordSum(data[1..], !odd)
  }

  function Weight(b: byte, odd: bool): nat {
    if odd then b as int else b as int * 256
  }

  predicate Odd(n: nat) { n % 2 == 1 }

  /** The one's-complement value of a sum: congruent modulo 65535, and zero only for zero. */
  function Folded(x: nat): u16 {
    if x == 0 then 0 else (x - 1) % 65535 + 1
  }

  function Complement(sum: nat): u16 { 65535 - Folded(sum) }

  class InternetChecksum {
    var sum: u32
    var parity: bool

    constructor (initial: u32)
      ensures sum == initial && !parity
    {
      sum, parity := initial, false;
    }

    method Add(data: seq<byte>)
      modifies this
      ensures sum == U32(old(sum) + WordSum(data, old(parity)))
      ensures parity == (old(parity) != Odd(|data|))
    {
      var i := 0;
      ghost var total: nat := sum;
      while i < |data|
        invariant 0 <= i <= |data| && sum == U32(total)
        invariant total + WordSum(data[i..], parity) == old(sum) + WordSum(data, old(parity))
        invariant parity == (old(parity) != Odd(i))
      {
        assert data[i..][1..] == data[i + 1..];
        U32Absorbs(total, Weight(data[i], parity));
        total := total + Weight(data[i], parity);
        sum := U32(sum + Weight(data[i], parity));
        parity := !parity;
        i := i + 1;
      }
    }

    method Value() returns (r: u16)
      ensures r == Complement(sum)
    {
      var ret: nat := sum;
      while ret > 0xffff
        invariant Folded(ret) == Folded(sum)
      {
        FoldStep(ret);
        ret := ret / 65536 + ret % 65536;
      }
      assert Folded(ret) == ret;
      r := 65535 - ret;
    }
  }

  /** The checksum of one piece of data. */
  method ChecksumOf(initial: u32, data: seq<byte>) returns (r: u16)
    ensures r == Complement(U32(initial + WordSum(data, false)))
  {
    var check := new InternetChecksum(initial);
    check.Add(data);
    r := check.Value();
  }

  lemma U32Absorbs(x: nat, y: nat)
    ensures U32(U32(x) + y) == U32(x + y)
  {
  }

  /** Adding the high half to the low half keeps the folded value. */
  lemma FoldStep(x: nat)
    requires x > 0xffff
    ensures x / 65536 + x % 65536 < x && Folded(x / 65536 + x % 65536) == Folded(x)
  {
    var q, r := x / 65536, x % 65536;
    assert x - 1 == (q + r - 1) + 65535 * q;
    ModShift(q + r - 1, q);
  }

  lemma ModShift(x: int, k: int)
    ensures (x + 65535 * k) % 65535 == x % 65535
  {
  }

  /** Adding data in pieces, odd lengths included, equals adding the concatenation. */
  lemma {:induction false} WordSumConcat(a: seq<byte>, b: seq<byte>, odd: bool)
    ensures WordSum(a + b, odd) == WordSum(a, odd) + WordSum(b, odd != Odd(|a|))
  {
    if a == [] {
      assert a + b == b;
    } else {
      assert (a + b)[1..] == a[1..] + b;
      WordSumConcat(a[1..], b, !odd);
    }
  }

  /** A sum that contains its own complement verifies: its complement is zero. */
  lemma ComplementVerifies(sum: nat)
    ensures Complement(sum + Complement(sum)) == 0
  {
    if sum > 0 {
      var k := (sum - 1) / 65535;
      assert sum + Complement(sum) == 65535 * (k + 1);
      ModShift(65534, k);
    }
  }

  lemma {:induction false} WordSumBound(data: seq<byte>, odd: bool)
    ensures WordSum(data, odd) <= |data| * 32768 + (if odd then 0 else 32512)
  {
    if data == [] {
    } else {
      WordSumBound(data[1..], !odd);
    }
  }

  /**
   * Filling in the complement makes the whole verify: `whole` adds up to `head` and `body` plus the
   * checksum computed over them in two pieces.
   */
  lemma ChecksumVerifies(initial: u32, head: seq<byte>, body: seq<byte>, whole: seq<byte>, cksum: u16)
    requires initial < 0x7FFF_0000 && |head| + |body| <= 65535 && !Odd(|head|)
    requires cksum == Complement(U32(U32(initial + WordSum(head, false)) + WordSum(body, Odd(|head|))))
    requires WordSum(whole, false) == WordSum(head + body, false) + cksum
    ensures Complement(U32(initial + WordSum(whole, false))) == 0
  {
    WordSumConcat(head, body, false);
    WordSumBound(head + body, false);
    SumVerifies(initial, WordSum(head, false), WordSum(body, false), cksum);
  }

  lemma SumVerifies(initial: nat, a: nat, b: nat, cksum: u16)
    requires initial + a + b + 65535 < TWO32 && cksum == Complement(U32(U32(initial + a) + b))
    ensures Complement(U32(initial + a + b + cksum)) == 0
  {
    Fits(initial + a);
    Fits(initial + a + b);
    Fits(initial + a + b + cksum);
    ComplementVerifies(initial + a + b);
  }

  /** The sums of two pieces, together no longer than a datagram, leave room for a pseudo-header. */
  lemma TwoPieces(head: seq<byte>, body: seq<byte>)
    requires |head| + |body| <= 65535
    ensures WordSum(head + body, false) == WordSum(head, false) + WordSum(body, Odd(|head|)) < TWO32 - 0x7FFF_0000
  {
    WordSumConcat(head, body, false);
    WordSumBound(head + body, false);
    assert (false != Odd(|head|)) == Odd(|head|);
  }

  /** Without wrapping, sums simply add up. */
  lemma AddedUp(initial: nat, a: nat, b: nat, total: nat)
    requires total == initial + a + b < TWO32
    ensures U32(U32(initial + a) + b) == total
  {
    Fits(initial + a);
    Fits(total);
  }

  lemma PiecesAddUp(initial: u32, head: seq<byte>, body: seq<byte>, a: nat, b: nat)
    requires initial < 0x7FFF_0000 && |head| + |body| <= 65535
    requires a == WordSum(head, false) && b == WordSum(body, Odd(|head|))
    ensures U32(U32(initial + a) + b) == initial + a + b && a + b == WordSum(head + body, false)
  {
    TwoPieces(head, body);
    AddedUp(initial, a, b, initial + a + b);
  }

  lemma {:induction false} WordSumUpdate(data: seq<byte>, i: nat, b: byte, odd: bool)
    requires i < |data|
    ensures var at := odd != Odd(i);
            WordSum(data[i := b], odd) == WordSum(data, odd) - Weight(data[i], at) + Weight(b, at)
  {
    if i == 0 {
      assert data[0 := b][1..] == data[1..];
    } else {
      assert data[i := b][1..] == data[1..][i - 1 := b];
      WordSumUpdate(data[1..], i - 1, b, !odd);
    }
  }

  /** Only positive multiples of 65535 verify. */
  lemma VerifiesIff(sum: nat)
    ensures Complement(sum) == 0 <==> sum > 0 && sum % 65535 == 0
  {
    if sum > 0 {
      var q, r := (sum - 1) / 65535, (sum - 1) % 65535;
      assert sum == 65535 * q + (r + 1);
      if r == 65534 {
        ModShift(0, q + 1);
      } else {
        ModShift(r + 1, q);
      }
    }
  }

  lemma CloseMultiples(x: int, y: int)
    requires x % 65535 == 0 && y % 65535 == 0 && x != y
    ensures Abs(x - y) >= 65535
  {
    assert x - y == 65535 * (x / 65535 - y / 65535);
  }

  /** A change to any single byte of data that verifies is detected. */
  lemma SingleByteDetected(initial: u32, data: seq<byte>, i: nat, b: byte)
    requires initial < 0x7FFF_0000 && |data| <= 65535 && i < |data| && b != data[i]
    requires Complement(U32(initial + WordSum(data, false))) == 0
    ensures Complement(U32(initial + WordSum(data[i := b], false))) != 0
  {
    var sum, sum' := initial + WordSum(data, false), initial + WordSum(data[i := b], false);
    WordSumUpdate(data, i, b, false);
    WordSumBound(data, false);
    WordSumBound(data[i := b], false);
    Fits(sum);
    Fits(sum');
    VerifiesIff(sum);
    VerifiesIff(sum');
    if sum' % 65535 == 0 {
      CloseMultiples(sum, sum');
    }
  }

  lemma Fits(x: nat)
    requires x < TWO32
    ensures U32(x) == x
  {
  }
}
