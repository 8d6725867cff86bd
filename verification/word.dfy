/** Fixed-width machine words as they appear in the C source: `uint32_t`
    values and the `unsigned char` bytes read from the entropy device. Dafny
    integers are unbounded, so every wrap-around is written out here. */
module Word {

  /** 2^32, the number of distinct `uint32_t` values. */
  const Modulus32: int := 0x1_0000_0000

  type uint32 = x: int | 0 <= x < Modulus32
  type byte = x: int | 0 <= x < 256

  /** Unsigned negation `-x` on `uint32_t`: two's complement wrap-around. */
  function Neg32(x: uint32): (r: uint32)
    ensures (r + x) % Modulus32 == 0
    ensures x != 0 ==> r == Modulus32 - x
  {
    (Modulus32 - x) % Modulus32
  }

  /** Multiplying by a positive factor never makes a positive number smaller. */
  lemma MulAtLeast(t: int, b: int)
    requires b > 0 && t >= 1
    ensures t * b >= b
  {
  }

  /** Multiplying by a negative factor gives at most the negated factor. */
  lemma MulAtMost(t: int, b: int)
    requires b > 0 && t <= -1
    ensures t * b <= -b
  {
    MulAtLeast(-t, b);
    assert t * b == -((-t) * b);
  }

  /** One more block of `b`. */
  lemma MulSucc(k: int, b: int)
    ensures (k + 1) * b == k * b + b
  {
  }

  /** Multiplication by a positive number is monotonic. */
  lemma MulMonotone(k1: int, k2: int, b: int)
    requires b > 0 && k1 <= k2
    ensures k1 * b <= k2 * b
  {
    if k1 < k2 {
      MulAtLeast(k2 - k1, b);
      assert k2 * b - k1 * b == (k2 - k1) * b;
    }
  }

  /** Uniqueness of Euclidean division: `j` is the remainder of `k * b + j`
      whenever it lies in `[0, b)`. */
  lemma ModMultiplePlus(k: int, b: int, j: int)
    requires b > 0 && 0 <= j < b
    ensures (k * b + j) % b == j
  {
    var x := k * b + j;
    var q := x / b;
    var r := x % b;
    assert x == q * b + r;
    var t := q - k;
    assert t * b == j - r by {
      assert t * b == q * b - k * b;
    }
    if t >= 1 {
      MulAtLeast(t, b);
    } else if t <= -1 {
      MulAtMost(t, b);
    }
    assert t == 0;
  }

  /** Subtracting the modulus once does not change a remainder. */
  lemma ModSubModulus(x: int, b: int)
    requires b > 0
    ensures (x - b) % b == x % b
  {
    var q := x / b;
    assert x == q * b + x % b;
    assert x - b == (q - 1) * b + x % b;
    ModMultiplePlus(q - 1, b, x % b);
  }

  /** The host's byte order, which decides how `randombytes_sysrandom`
      reinterprets the four bytes it read as one `uint32_t`. */
  datatype ByteOrder = LittleEndian | BigEndian

  /** The word whose bytes, from least to most significant, are `b0` .. `b3`. */
  function Combine(b0: byte, b1: byte, b2: byte, b3: byte): (w: uint32)
  {
    b0 as int + 0x100 * (b1 as int + 0x100 * (b2 as int + 0x100 * b3 as int))
  }

  /** The `uint32_t` whose in-memory representation on a host of the given
      byte order is the four bytes `b`. */
  function Decode32(order: ByteOrder, b: seq<byte>): (w: uint32)
    requires |b| == 4
  {
    match order
    case LittleEndian => Combine(b[0], b[1], b[2], b[3])
    case BigEndian => Combine(b[3], b[2], b[1], b[0])
  }

  /** The four bytes that store `w` on a host of the given byte order. */
  function Encode32(order: ByteOrder, w: uint32): (b: seq<byte>)
    ensures |b| == 4
  {
    var lsb := [w % 0x100, (w / 0x100) % 0x100, (w / 0x1_0000) % 0x100, w / 0x100_0000];
    match order
    case LittleEndian => lsb
    case BigEndian => [lsb[3], lsb[2], lsb[1], lsb[0]]
  }

  /** Reading back the representation of a word gives the word. */
  lemma DecodeEncode(order: ByteOrder, w: uint32)
    ensures Decode32(order, Encode32(order, w)) == w
  {
    var b0, b1, b2, b3 := w % 0x100, (w / 0x100) % 0x100, (w / 0x1_0000) % 0x100, w / 0x100_0000;
    assert w / 0x100 == b1 + 0x100 * (w / 0x1_0000);
    assert w / 0x1_0000 == b2 + 0x100 * b3;
  }

  /** Dividing `k * b + j` by `b` gives `k` back. */
  lemma DivMultiplePlus(k: int, b: int, j: int)
    requires b > 0 && 0 <= j < b
    ensures (k * b + j) / b == k
  {
    ModMultiplePlus(k, b, j);
  }

  /** The bytes of a combined word, recovered one at a time. */
  lemma CombineBytes(b0: byte, b1: byte, b2: byte, b3: byte)
    ensures Combine(b0, b1, b2, b3) % 0x100 == b0
    ensures (Combine(b0, b1, b2, b3) / 0x100) % 0x100 == b1
    ensures (Combine(b0, b1, b2, b3) / 0x1_0000) % 0x100 == b2
    ensures Combine(b0, b1, b2, b3) / 0x100_0000 == b3
  {
    var w := Combine(b0, b1, b2, b3);
    var hi2: int := b2 as int + 0x100 * b3 as int;
    var hi1: int := b1 as int + 0x100 * hi2;
    assert w == hi1 * 0x100 + b0;
    DivMultiplePlus(hi1, 0x100, b0);
    ModMultiplePlus(hi1, 0x100, b0);
    assert hi1 == hi2 * 0x100 + b1;
    DivMultiplePlus(hi2, 0x100, b1);
    ModMultiplePlus(hi2, 0x100, b1);
    assert w / 0x1_0000 == (w / 0x100) / 0x100;
    ModMultiplePlus(b3, 0x100, b2);
    DivMultiplePlus(b3, 0x100, b2);
    assert w / 0x100_0000 == (w / 0x1_0000) / 0x100;
  }

  /** Every four-byte buffer is the representation of the word decoded from it. */
  lemma EncodeDecode(order: ByteOrder, b: seq<byte>)
    requires |b| == 4
    ensures Encode32(order, Decode32(order, b)) == b
  {
    match order
    case LittleEndian => CombineBytes(b[0], b[1], b[2], b[3]);
    case BigEndian => CombineBytes(b[3], b[2], b[1], b[0]);
  }
}
