/// Byte-level vocabulary of the OBD-II responder: the bytes of a CAN frame,
/// C's conversion to `uint8_t`, and big-endian packing of a `uint32_t`
/// together with its inverse.
///
/// Bytes and words are integers in their C ranges; a right shift by a whole
/// number of bytes is written as a division by 256 per byte, and a mask with
/// 0xff as reduction modulo 256.
module Wire {

  /** One data byte of a CAN frame, C's `uint8_t`. */
  type Byte = b: int | 0 <= b < 256

  /** C's `uint32_t`. */
  type Word = w: int | 0 <= w < 0x1_0000_0000

  /** The CAN payload as the receive path delivers it: always eight bytes. */
  type Payload = s: seq<Byte> | |s| == 8 witness [0, 0, 0, 0, 0, 0, 0, 0]

  /** A frame handed to the CAN transport: 11-bit identifier, data length code, data bytes. */
  datatype Frame = Frame(id: int, dlc: nat, data: seq<Byte>)

  /** C's conversion of an `int` to `uint8_t`: reduction modulo 256. */
  function ToByte(x: int): (b: Byte)
    ensures 0 <= x < 256 ==> b == x
    ensures (b - x) % 256 == 0
  {
    x % 256
  }

  /** `n` zero bytes: the part of a response buffer no handler writes. */
  function Zeros(n: nat): (z: seq<Byte>)
    ensures |z| == n && forall k :: 0 <= k < n ==> z[k] == 0
  {
    seq(n, _ => 0)
  }

  /** 256 to the power `n`: the number of values `n` bytes can hold. */
  function Radix(n: nat): (r: nat)
    ensures r >= 1
  {
    if n == 0 then 1 else 256 * Radix(n - 1)
  }

  /** `(v >> 8k) & 0xff`: byte `k` of `v`, counting from the least significant. */
  function ByteAt(v: nat, k: nat): Byte {
    if k == 0 then v % 256 else ByteAt(v / 256, k - 1)
  }

  /** The low `n` bytes of `v`, most significant first. */
  function BigEndian(v: nat, n: nat): (s: seq<Byte>)
    ensures |s| == n
  {
    if n == 0 then [] else BigEndian(v / 256, n - 1) + [v % 256]
  }

  /** Reassembles bytes, most significant first, into a number. */
  function BeValue(s: seq<Byte>): nat {
    if s == [] then 0 else BeValue(s[..|s| - 1]) * 256 + s[|s| - 1]
  }

  /** Byte `m` of the big-endian form is byte `n - 1 - m` of the value. */
  lemma {:induction false} BigEndianAt(v: nat, n: nat, m: nat)
    requires m < n
    ensures BigEndian(v, n)[m] == ByteAt(v, n - 1 - m)
  {
    if m < n - 1 {
      BigEndianAt(v / 256, n - 1, m);
    }
  }

  /** Reassembling the `n` big-endian bytes of a value gives the value modulo
      256^n, so a value that fits in `n` bytes comes back unchanged. */
  lemma {:induction false} BeValueOfBigEndian(v: nat, n: nat)
    ensures BeValue(BigEndian(v, n)) == v % Radix(n)
    ensures v < Radix(n) ==> BeValue(BigEndian(v, n)) == v
  {
    if n > 0 {
      var s := BigEndian(v, n);
      assert s[..n - 1] == BigEndian(v / 256, n - 1);
      BeValueOfBigEndian(v / 256, n - 1);
      ModBytes(v, Radix(n - 1));
    }
  }

  /** Taking `v` modulo `256 r` keeps its low byte and its higher bytes modulo `r`. */
  lemma ModBytes(v: nat, r: nat)
    requires r >= 1
    ensures v % (256 * r) == (v / 256 % r) * 256 + v % 256
  {
    var q := v / 256;
    var c := (q % r) * 256 + v % 256;
    assert q == r * (q / r) + q % r;
    assert v == (256 * r) * (q / r) + c;
    assert c < 256 * r by {
      assert q % r <= r - 1;
      assert (q % r) * 256 <= (r - 1) * 256;
    }
    ModUnique(v, 256 * r, q / r, c);
  }

  /** Division with remainder is unique: a remainder in range is `v % m`. */
  lemma ModUnique(v: int, m: int, a: int, c: int)
    requires m > 0 && 0 <= c < m && v == m * a + c
    ensures v % m == c
  {
    var q, r := v / m, v % m;
    assert m * q + r == m * a + c;
    var d := a - q;
    assert m * d == r - c;
    if d >= 1 {
      MulGrows(m, d);
    } else if d <= -1 {
      MulGrows(m, -d);
    }
  }

  /** A positive number times at least one is at least that number. */
  lemma MulGrows(m: int, d: int)
    requires m > 0 && d >= 1
    ensures m * d >= m
  {
    assert m * d == m * (d - 1) + m;
    assert m * (d - 1) >= 0;
  }

  /** Any `n` bytes are the big-endian form of the value they reassemble to, and that value fits in `n` bytes. */
  lemma {:induction false} BigEndianOfBeValue(s: seq<Byte>)
    ensures BeValue(s) < Radix(|s|)
    ensures BigEndian(BeValue(s), |s|) == s
  {
    if s != [] {
      var init := s[..|s| - 1];
      BigEndianOfBeValue(init);
      assert init + [s[|s| - 1]] == s;
    }
  }
}
