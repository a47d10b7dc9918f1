// Unsigned byte and 16-bit word values, and the big-endian byte layouts that
// both the Java gateway and the Rust client use on the wire.
module Bytes {
  /** An octet as the gateway reads it (every read goes through an unsigned view). */
  type uint8 = x: int | 0 <= x < 0x100
  /** A 16-bit unsigned word: group address words and datapoint main/sub numbers. */
  type uint16 = x: int | 0 <= x < 0x1_0000

  /** The high byte of a word, as `w >> 8`. */
  function Hi(w: uint16): (r: uint8)
    ensures r * 0x100 <= w < (r + 1) * 0x100
  {
    w / 0x100
  }

  /** The low byte of a word, as `w & 0xFF`. */
  function Lo(w: uint16): (r: uint8)
    ensures (w - r) % 0x100 == 0
  {
    w % 0x100
  }

  /** The word `(hi << 8) | lo`: the two bit fields are disjoint, so `|` is `+`. */
  function Word(hi: uint8, lo: uint8): (r: uint16)
    ensures Hi(r) == hi && Lo(r) == lo
  {
    hi * 0x100 + lo
  }

  /** A word as two big-endian bytes. */
  function BigEndian(w: uint16): (r: seq<uint8>)
    ensures |r| == 2 && Word(r[0], r[1]) == w
  {
    [Hi(w), Lo(w)]
  }

  /** Bitwise or of two naturals, bit by bit from the least significant. */
  function Or(a: nat, b: nat): (r: nat)
    ensures r <= a + b
    decreases a + b
  {
    if a == 0 then b
    else if b == 0 then a
    else 2 * Or(a / 2, b / 2) + (if a % 2 == 1 || b % 2 == 1 then 1 else 0)
  }

  /** Bitwise or of two octets: an octet again. */
  function Or8(a: uint8, b: uint8): (r: uint8)
  {
    OrBelow(a, b, 0x100);
    Or(a, b)
  }

  /** Or-ing two values below a power of two `m` stays below `m`. */
  lemma {:induction false} OrBelow(a: nat, b: nat, m: nat)
    requires IsPowerOfTwo(m) && a < m && b < m
    ensures Or(a, b) < m
    decreases m
  {
    if a != 0 && b != 0 {
      OrBelow(a / 2, b / 2, m / 2);
    }
  }

  predicate IsPowerOfTwo(m: nat)
    decreases m
  {
    m == 1 || (m > 1 && m % 2 == 0 && IsPowerOfTwo(m / 2))
  }

  /** Or-ing a value below `m` into a multiple of the power of two `m` adds it. */
  lemma {:induction false} OrDisjoint(q: nat, lo: nat, m: nat)
    requires IsPowerOfTwo(m) && lo < m
    ensures Or(m * q, lo) == m * q + lo
    decreases m
  {
    var hi := m * q;
    if hi != 0 && lo != 0 {
      var h := m / 2;
      var x := h * q;
      assert hi == 2 * x by {
        assert m == 2 * h;
      }
      assert hi / 2 == x && hi % 2 == 0;
      OrDisjoint(q, lo / 2, h);
      assert Or(hi, lo) == 2 * Or(x, lo / 2) + lo % 2;
    }
  }

  /** Or-ing a value below 8 into an octet with its three low bits clear adds it. */
  lemma OrLowBits(q: nat, lo: nat)
    requires q * 8 < 0x100 && lo < 8
    ensures Or8(q * 8, lo) == q * 8 + lo
  {
    assert IsPowerOfTwo(1) && IsPowerOfTwo(2) && IsPowerOfTwo(4) && IsPowerOfTwo(8);
    OrDisjoint(q, lo, 8);
  }

  /** A value over eight with a remainder below eight, divided back. */
  lemma DivModEight(q: nat, k: nat)
    requires k < 8
    ensures (q * 8 + k) / 8 == q && (q * 8 + k) % 8 == k
  {
  }

  /** A value over 0x100 with a remainder below 0x100, divided back. */
  lemma DivModByte(q: nat, k: nat)
    requires k < 0x100
    ensures (q * 0x100 + k) / 0x100 == q && (q * 0x100 + k) % 0x100 == k
  {
  }

  /** A value over 0x800 with a remainder below 0x800, divided back. */
  lemma DivModEleven(q: nat, k: nat)
    requires k < 0x800
    ensures (q * 0x800 + k) / 0x800 == q
  {
  }
}
