/** Bytes, exclusive or and payload masking, shared by the WebSocket modules. */
module WsBytes {

  type byte = b: int | 0 <= b < 256

  /** The first number that a signed 64-bit integer cannot hold. */
  const INT64_LIMIT := 0x8000_0000_0000_0000

  /** Bitwise exclusive or of the `bits` low bits of two numbers. */
  function XorBits(a: nat, b: nat, bits: nat): nat {
    if bits == 0 then 0
    else (a % 2 + b % 2) % 2 + 2 * XorBits(a / 2, b / 2, bits - 1)
  }

  function Pow2(n: nat): nat {
    if n == 0 then 1 else 2 * Pow2(n - 1)
  }

  lemma {:induction false} XorBitsBound(a: nat, b: nat, bits: nat)
    ensures XorBits(a, b, bits) < Pow2(bits)
  {
    if bits > 0 {
      XorBitsBound(a / 2, b / 2, bits - 1);
    }
  }

  lemma HalfAndBit(x: nat, half: nat, bit: nat)
    requires bit < 2 && x == bit + 2 * half
    ensures x / 2 == half && x % 2 == bit
  {
  }

  lemma {:induction false} XorBitsTwice(a: nat, b: nat, bits: nat)
    requires a < Pow2(bits)
    ensures XorBits(XorBits(a, b, bits), b, bits) == a
  {
    if bits > 0 {
      XorBitsTwice(a / 2, b / 2, bits - 1);
      HalfAndBit(XorBits(a, b, bits), XorBits(a / 2, b / 2, bits - 1), (a % 2 + b % 2) % 2);
    }
  }

  lemma {:induction false} XorBitsZero(a: nat, bits: nat)
    requires a < Pow2(bits)
    ensures XorBits(a, 0, bits) == a
  {
    if bits > 0 {
      XorBitsZero(a / 2, bits - 1);
    }
  }

  function Xor(a: byte, b: byte): byte {
    XorBitsBound(a, b, 8);
    assert Pow2(8) == 256;
    XorBits(a, b, 8)
  }

  lemma XorLaws(a: byte, b: byte)
    ensures Xor(Xor(a, b), b) == a
    ensures Xor(a, 0) == a
  {
    assert Pow2(8) == 256;
    XorBitsTwice(a, b, 8);
    XorBitsZero(a, 8);
  }

  /** The k-th bit of a number. */
  function Bit(x: nat, k: nat): nat {
    if k == 0 then x % 2 else Bit(x / 2, k - 1)
  }

  lemma {:induction false} XorBitsBitwise(a: nat, b: nat, bits: nat, k: nat)
    requires k < bits
    ensures Bit(XorBits(a, b, bits), k) == if Bit(a, k) == Bit(b, k) then 0 else 1
    decreases k
  {
    HalfAndBit(XorBits(a, b, bits), XorBits(a / 2, b / 2, bits - 1), (a % 2 + b % 2) % 2);
    if k > 0 {
      XorBitsBitwise(a / 2, b / 2, bits - 1, k - 1);
    }
  }

  /** Each bit of the result is set exactly when the two bits differ. */
  lemma XorIsBitwise(a: byte, b: byte, k: nat)
    requires k < 8
    ensures Bit(Xor(a, b), k) == if Bit(a, k) == Bit(b, k) then 0 else 1
  {
    XorBitsBitwise(a, b, 8, k);
  }

  function Differ(x: nat, y: nat): nat {
    if x % 2 == y % 2 then 0 else 1
  }

  lemma XorBitsStep(a: nat, b: nat, bits: nat)
    ensures XorBits(a, b, 0) == 0
    ensures XorBits(a, b, bits + 1) == Differ(a, b) + 2 * XorBits(a / 2, b / 2, bits)
  {
  }

  /** Four bits at a time. */
  lemma XorFour(a: nat, b: nat, bits: nat)
    ensures XorBits(a, b, bits + 4)
            == Differ(a, b) + 2 * Differ(a / 2, b / 2) + 4 * Differ(a / 2 / 2, b / 2 / 2)
               + 8 * Differ(a / 2 / 2 / 2, b / 2 / 2 / 2) + 16 * XorBits(a / 2 / 2 / 2 / 2, b / 2 / 2 / 2 / 2, bits)
  {
    hide XorBits, Differ;
    XorBitsStep(a, b, bits + 3);
    XorBitsStep(a / 2, b / 2, bits + 2);
    XorBitsStep(a / 2 / 2, b / 2 / 2, bits + 1);
    XorBitsStep(a / 2 / 2 / 2, b / 2 / 2 / 2, bits);
  }
  lemma XorOfBytes(a: byte, b: byte)
    ensures Xor(a, b)
            == Differ(a, b) + 2 * Differ(a / 2, b / 2) + 4 * Differ(a / 2 / 2, b / 2 / 2)
               + 8 * Differ(a / 2 / 2 / 2, b / 2 / 2 / 2) + 16 * XorBits(a / 2 / 2 / 2 / 2, b / 2 / 2 / 2 / 2, 4)
  {
    XorFour(a, b, 4);
  }

  /** The bits of a byte determine it. */
  lemma {:induction false} BitsDetermine(x: nat, y: nat, bits: nat)
    requires x < Pow2(bits) && y < Pow2(bits) && forall k :: 0 <= k < bits ==> Bit(x, k) == Bit(y, k)
    ensures x == y
  {
    if bits > 0 {
      assert Bit(x, 0) == Bit(y, 0);
      forall k | 0 <= k < bits - 1
        ensures Bit(x / 2, k) == Bit(y / 2, k)
      {
        assert Bit(x, k + 1) == Bit(y, k + 1);
      }
      BitsDetermine(x / 2, y / 2, bits - 1);
    }
  }

  /** A mask key, kept so that its first byte is the one the next payload byte meets. */
  type Key = k: seq<byte> | |k| == 4 witness [0, 0, 0, 0]

  const ZERO_KEY: Key := [0, 0, 0, 0]

  function Rotate(key: Key): Key {
    [key[1], key[2], key[3], key[0]]
  }

  /** RFC 6455, section 5.3: octet i of the result is octet i of the input XOR key octet i MOD 4. */
  function Mask(key: Key, payload: seq<byte>): (masked: seq<byte>)
    ensures |masked| == |payload|
    decreases |payload|
  {
    if payload == [] then []
    else [Xor(payload[0], key[0])] + Mask(Rotate(key), payload[1..])
  }

  lemma {:induction false} MaskAt(key: Key, payload: seq<byte>, i: nat)
    requires i < |payload|
    ensures Mask(key, payload)[i] == Xor(payload[i], key[i % 4])
    decreases i
  {
    if i > 0 {
      MaskAt(Rotate(key), payload[1..], i - 1);
      assert Rotate(key)[(i - 1) % 4] == key[i % 4];
    }
  }

  /** Unmasking is masking again. */
  lemma {:induction false} MaskTwice(key: Key, payload: seq<byte>)
    ensures Mask(key, Mask(key, payload)) == payload
    decreases |payload|
  {
    if payload != [] {
      XorLaws(payload[0], key[0]);
      MaskTwice(Rotate(key), payload[1..]);
      assert Mask(key, payload)[1..] == Mask(Rotate(key), payload[1..]);
    }
  }

  lemma MaskAtAll(key: Key, payload: seq<byte>)
    ensures forall i :: 0 <= i < |payload| ==> Mask(key, payload)[i] == Xor(payload[i], key[i % 4])
  {
    forall i | 0 <= i < |payload|
      ensures Mask(key, payload)[i] == Xor(payload[i], key[i % 4])
    {
      MaskAt(key, payload, i);
    }
  }
}
