/** The weak rolling checksum of the Kitty rsync format: two sums kept modulo 2^16. */
module RollingChecksums {
  import opened Bytes

  const MODULUS := 0x1_0000

  function Wrap(x: int): u16 { x % MODULUS }
  function WrappingAdd(a: u16, b: u16): u16 { Wrap(a + b) }
  function WrappingSub(a: u16, b: u16): u16 { Wrap(a - b) }
  function WrappingMul(a: u16, b: u16): u16 { Wrap(a * b) }

  /** Reference definition: unbounded sums over the whole window, reduced once at the end. */
  function Sum(w: seq<byte>): nat {
    if w == [] then 0 else w[0] + Sum(w[1..])
  }

  function WeightedSum(w: seq<byte>): nat {
    if w == [] then 0 else |w| * w[0] + WeightedSum(w[1..])
  }

  function Checksum(w: seq<byte>): u32 {
    Wrap(Sum(w)) + MODULUS * Wrap(WeightedSum(w))
  }

  lemma WrapSame(x: int, y: int, q: int)
    requires x == y + MODULUS * q
    ensures Wrap(x) == Wrap(y)
  {}

  /** Truncating a factor first does not change a product modulo 2^16. */
  lemma WrapFactor(x: int, y: int)
    ensures Wrap(Wrap(x) * y) == Wrap(x * y)
  {
    var q := x / MODULUS;
    assert x == MODULUS * q + Wrap(x);
    assert x * y == Wrap(x) * y + MODULUS * (q * y);
    WrapSame(x * y, Wrap(x) * y, q * y);
  }

  /** Reducing an operand first does not change a sum or a difference modulo 2^16. */
  lemma WrapOperand(x: int, y: int)
    ensures Wrap(Wrap(x) + y) == Wrap(x + y)
    ensures Wrap(y - Wrap(x)) == Wrap(y - x)
  {
    var q := x / MODULUS;
    assert x == MODULUS * q + Wrap(x);
    WrapSame(x + y, Wrap(x) + y, q);
    WrapSame(y - Wrap(x), y - x, q);
  }

  /** One step of the summing loop: byte `b` at weight `weight`, with `s` and `t` still to come. */
  lemma AccumulateOne(alpha: u16, beta: u16, weight: int, b: byte, s: int, t: int)
    ensures Wrap(WrappingAdd(alpha, b) + s) == Wrap(alpha + (b + s))
    ensures Wrap(WrappingAdd(beta, WrappingMul(Wrap(weight), b)) + t) == Wrap(beta + (weight * b + t))
  {
    assert Wrap(WrappingAdd(alpha, b) + s) == Wrap(alpha + (b + s)) by { WrapOperand(alpha + b, s); }
    var product := weight * b;
    assert WrappingMul(Wrap(weight), b) == Wrap(product) by { WrapFactor(weight, b); }
    WrapOperand(beta + Wrap(product), t);
    WrapOperand(product, beta + t);
  }

  lemma WeightAt(length: int, index: int)
    ensures WrappingSub(Wrap(length), Wrap(index)) == Wrap(length - index)
  {}

  /** One slide of a window whose plain sum is `sum`. */
  lemma RollSum(sum: int, outgoing: byte, incoming: byte)
    ensures WrappingAdd(WrappingSub(Wrap(sum), outgoing), incoming) == Wrap(sum - outgoing + incoming)
  {}

  /** One slide of a window of `length` bytes with weighted sum `weighted`, to the plain sum `sum`. */
  lemma RollWeighted(sum: int, weighted: int, length: int, outgoing: byte)
    ensures WrappingAdd(WrappingSub(Wrap(weighted), WrappingMul(Wrap(length), outgoing)), Wrap(sum))
         == Wrap(weighted - length * outgoing + sum)
  {
    var product := length * outgoing;
    assert WrappingMul(Wrap(length), outgoing) == Wrap(product) by { WrapFactor(length, outgoing); }
    var difference := weighted - product;
    assert WrappingSub(Wrap(weighted), Wrap(product)) == Wrap(difference) by {
      WrapOperand(product, Wrap(weighted));
      WrapOperand(weighted, 0 - product);
    }
    WrapOperand(difference, Wrap(sum));
    WrapOperand(sum, difference);
  }

  lemma {:induction false} SumSnoc(w: seq<byte>, b: byte)
    ensures Sum(w + [b]) == Sum(w) + b
    ensures WeightedSum(w + [b]) == WeightedSum(w) + Sum(w) + b
  {
    if w == [] {
      assert w + [b] == [b] && [b][1..] == [];
    } else {
      SumSnoc(w[1..], b);
      assert (w + [b])[1..] == w[1..] + [b];
      assert (|w| + 1) * w[0] == |w| * w[0] + w[0];
    }
  }

  lemma Unfold(w: seq<byte>, index: nat)
    requires index < |w|
    ensures Sum(w[index..]) == w[index] + Sum(w[index + 1..])
    ensures WeightedSum(w[index..]) == (|w| - index) * w[index] + WeightedSum(w[index + 1..])
  {}

  /** The first `n` bytes of a block, added up. */
  function ByteSum(b: seq<byte>, n: nat): nat
    requires n <= |b|
  {
    if n == 0 then 0 else ByteSum(b, n - 1) + b[n - 1]
  }

  /** The first `n` bytes of a block, added up with byte `i` taken `|b| - i` times. */
  function PositionSum(b: seq<byte>, n: nat): nat
    requires n <= |b|
  {
    if n == 0 then 0 else PositionSum(b, n - 1) + (|b| - (n - 1)) * b[n - 1]
  }

  lemma {:induction false} SumsByPosition(b: seq<byte>, n: nat)
    requires n <= |b|
    ensures Sum(b) == ByteSum(b, n) + Sum(b[n..]) && WeightedSum(b) == PositionSum(b, n) + WeightedSum(b[n..])
    decreases n
  {
    hide Sum, WeightedSum;
    if n == 0 {
      assert b[0..] == b;
    } else {
      SumsByPosition(b, n - 1);
      Unfold(b, n - 1);
    }
  }

  /** The checksum of a block as four bytes: the low half holds the plain sum, the high half the weighted one. */
  lemma ChecksumFields(b: seq<byte>)
    ensures var s := Le32(Checksum(b));
            && U16(s[..2]) == ByteSum(b, |b|) % 0x1_0000
            && U16(s[2..]) == PositionSum(b, |b|) % 0x1_0000
  {
    hide LittleEndian, FromLittleEndian, ByteSum, PositionSum, Sum, WeightedSum;
    SumsByPosition(b, |b|);
    assert b[|b|..] == [];
    NoBytes();
    EncodedFields(Checksum(b));
    HalvesOf(Le32(Checksum(b)), Wrap(Sum(b)), Wrap(WeightedSum(b)));
  }

  lemma NoBytes()
    ensures Sum([]) == 0 && WeightedSum([]) == 0
  {}

  lemma HalvesOf(s: seq<byte>, low: u16, high: u16)
    requires |s| == 4 && U32(s) == low + MODULUS * high
    ensures U16(s[..2]) == low && U16(s[2..]) == high
  {
    assert U32(s) == U16(s[..2]) + MODULUS * U16(s[2..]);
  }

  /** Adding the bytes from `index` on to the running sums gives the sums of the whole window. */
  ghost predicate Accumulated(w: seq<byte>, index: nat, alpha: u16, beta: u16)
    requires index <= |w|
  {
    && Wrap(alpha + Sum(w[index..])) == Wrap(Sum(w))
    && Wrap(beta + WeightedSum(w[index..])) == Wrap(WeightedSum(w))
  }

  lemma AccumulateByte(w: seq<byte>, index: nat, alpha: u16, beta: u16)
    requires index < |w| && Accumulated(w, index, alpha, beta)
    ensures Accumulated(w, index + 1, WrappingAdd(alpha, w[index]),
                        WrappingAdd(beta, WrappingMul(WrappingSub(Wrap(|w|), Wrap(index)), w[index])))
  {
    hide Sum, WeightedSum, Wrap, WrappingAdd, WrappingMul, WrappingSub;
    Unfold(w, index);
    WeightAt(|w|, index);
    AccumulateOne(alpha, beta, |w| - index, w[index], Sum(w[index + 1..]), WeightedSum(w[index + 1..]));
  }

  lemma AccumulatedAll(w: seq<byte>, alpha: u16, beta: u16)
    requires Accumulated(w, |w|, alpha, beta)
    ensures alpha == Wrap(Sum(w)) && beta == Wrap(WeightedSum(w))
  {}

  /** How both unbounded sums move when a window slides by one byte. */
  lemma Slide(w: seq<byte>, incoming: byte)
    requires w != []
    ensures Sum(w[1..] + [incoming]) == Sum(w) - w[0] + incoming
    ensures WeightedSum(w[1..] + [incoming])
         == WeightedSum(w) - |w| * w[0] + Sum(w[1..] + [incoming])
  {
    SumSnoc(w[1..], incoming);
  }

  class RollingChecksum {
    var alpha: u16
    var beta: u16
    var length: u16

    /** The object holds the reduced sums of window `w`. */
    ghost predicate Summarizes(w: seq<byte>)
      reads this
    {
      alpha == Wrap(Sum(w)) && beta == Wrap(WeightedSum(w)) && length == Wrap(|w|)
    }

    constructor (data: seq<byte>)
      ensures Summarizes(data)
    {
      length := Wrap(|data|);
      alpha, beta := 0, 0;
      new;
      assert data[0..] == data;
      var index := 0;
      while index < |data|
        invariant 0 <= index <= |data| && length == Wrap(|data|)
        invariant Accumulated(data, index, alpha, beta)
      {
        AccumulateByte(data, index, alpha, beta);
        alpha, beta := WrappingAdd(alpha, data[index]),
                       WrappingAdd(beta, WrappingMul(WrappingSub(length, Wrap(index)), data[index]));
        index := index + 1;
      }
      AccumulatedAll(data, alpha, beta);
    }

    method Roll(outgoing: byte, incoming: byte, ghost w: seq<byte>)
      requires w != [] && w[0] == outgoing && Summarizes(w)
      modifies this
      ensures Summarizes(w[1..] + [incoming])
    {
      ghost var slid := w[1..] + [incoming];
      Slide(w, incoming);
      RollSum(Sum(w), outgoing, incoming);
      RollWeighted(Sum(slid), WeightedSum(w), |w|, outgoing);
      alpha := WrappingAdd(WrappingSub(alpha, outgoing), incoming);
      beta := WrappingAdd(WrappingSub(beta, WrappingMul(length, outgoing)), alpha);
    }

    function Digest(): (digest: u32)
      reads this
      ensures forall w: seq<byte> :: Summarizes(w) ==> digest == Checksum(w)
    {
      alpha + MODULUS * beta
    }
  }
}
