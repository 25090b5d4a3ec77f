/** The `LITTLE_ENDIAN_16BIT(value)` byte-split macro: a value becomes the two
    bytes `value & 0x00FF` and `(value & 0xFF00) >> 8`, low byte first. */
module LittleEndian {
  import opened Types

  function Pow2(k: nat): (p: nat)
    ensures p >= 1
  {
    if k == 0 then 1 else 2 * Pow2(k - 1)
  }

  /** Bitwise AND of two non-negative integers, one bit at a time from the
      least significant end. */
  function BitAnd(a: nat, b: nat): nat
    decreases a
  {
    if a == 0 || b == 0 then 0
    else (if a % 2 == 1 && b % 2 == 1 then 1 else 0) + 2 * BitAnd(a / 2, b / 2)
  }

  /** C's `>> 8` on a non-negative operand. */
  function ShiftRight8(a: nat): nat
  {
    a / 0x100
  }

  /** The macro applied to a non-negative C `int`, the only kind the
      source passes to it: low byte first, then the byte above it. */
  function Split16(value: nat): (r: seq<byte>)
    ensures |r| == 2
    ensures r[0] == value % 0x100
    ensures r[1] == value % 0x1_0000 / 0x100
  {
    [LowByte(value), HighByte(value)]
  }

  /** `(uint8_t)(w & 0x00FF)`. The masked value is already below 0x100, so
      the cast keeps it as it is. */
  function LowByte(w: nat): (b: byte)
    ensures b == w % 0x100
  {
    LowMask(w, 8);
    assert Pow2(8) == 0x100;
    BitAnd(w, 0x00FF)
  }

  /** `(uint8_t)((w & 0xFF00) >> 8)`. The shifted value is already below
      0x100, so the cast keeps it as it is. */
  function HighByte(w: nat): (b: byte)
    ensures b == w % 0x1_0000 / 0x100
  {
    HighByteMask(w);
    ShiftRight8(BitAnd(w, 0xFF00))
  }

  /** Reassembles two little-endian bytes into the 16-bit value they encode. */
  function Join16(b: seq<byte>): (v: uint16)
    requires |b| == 2
  {
    b[0] as int + 0x100 * b[1] as int
  }

  /** Division with remainder has exactly one answer. */
  lemma {:induction false} DivModUnique(x: int, d: int, q: int, r: int)
    requires d > 0 && 0 <= r < d && x == d * q + r
    ensures x / d == q && x % d == r
  {
    var q', r' := x / d, x % d;
    assert x == d * q' + r';
    if q > q' {
      MulAtLeast(d, q - q');
    } else if q < q' {
      MulAtLeast(d, q' - q);
    }
  }

  lemma {:induction false} MulAtLeast(d: nat, t: nat)
    requires t >= 1
    ensures d * t >= d
  {
    assert d * t == d + d * (t - 1);
  }

  /** Reducing modulo a multiple first does not change a residue. */
  lemma {:induction false} ModOfMod(x: int, m: int, d: int)
    requires d > 0 && m > 0 && m % d == 0
    ensures x % m % d == x % d
  {
    var k := m / d;
    assert m == d * k;
    var q := x / m;
    assert x == m * q + x % m;
    assert x == d * (k * q + x % m / d) + x % m % d;
    DivModUnique(x, d, k * q + x % m / d, x % m % d);
  }

  /** Splitting off the lowest bit: `x % 2p` is the low bit plus twice the
      residue of the remaining bits. */
  lemma {:induction false} ModDouble(x: nat, p: nat)
    requires p >= 1
    ensures x % (2 * p) == x % 2 + 2 * (x / 2 % p)
    ensures x / (2 * p) == x / 2 / p
  {
    var h := x / 2;
    assert x == 2 * h + x % 2;
    assert h == p * (h / p) + h % p;
    assert x == (2 * p) * (h / p) + (x % 2 + 2 * (h % p));
    DivModUnique(x, 2 * p, h / p, x % 2 + 2 * (h % p));
  }

  /** AND with the mask of the low `k` bits is reduction modulo 2^k. */
  lemma {:induction false} LowMask(x: nat, k: nat)
    ensures BitAnd(x, Pow2(k) - 1) == x % Pow2(k)
  {
    if k > 0 {
      var p := Pow2(k - 1);
      assert Pow2(k) == 2 * p;
      assert Pow2(k) - 1 == 2 * (p - 1) + 1;
      AndOdd(x, p - 1);
      LowMask(x / 2, k - 1);
      ModDouble(x, p);
    }
  }

  /** AND with an odd mask: the lowest bit is kept and the rest shifts. */
  lemma {:induction false} AndOdd(x: nat, m: nat)
    ensures BitAnd(x, 2 * m + 1) == x % 2 + 2 * BitAnd(x / 2, m)
  {
    if x > 0 {
      assert (2 * m + 1) % 2 == 1 && (2 * m + 1) / 2 == m;
    }
  }

  /** AND with an even mask: the lowest bit is cleared and the rest shifts. */
  lemma {:induction false} AndEven(x: nat, m: nat)
    ensures BitAnd(x, 2 * m) == 2 * BitAnd(x / 2, m)
  {
    if x > 0 && m > 0 {
      assert (2 * m) % 2 == 0 && (2 * m) / 2 == m;
    }
  }

  /** AND with `0xFF00` keeps bits 8..15: eight applications of `AndEven`. */
  lemma {:induction false} HighByteMask(w: nat)
    ensures ShiftRight8(BitAnd(w, 0xFF00)) == w % 0x1_0000 / 0x100
  {
    var a1 := w / 2;
    var a2 := a1 / 2;
    var a3 := a2 / 2;
    var a4 := a3 / 2;
    var a5 := a4 / 2;
    var a6 := a5 / 2;
    var a7 := a6 / 2;
    var t := a7 / 2;
    AndEven(w, 0x7F80);
    AndEven(a1, 0x3FC0);
    AndEven(a2, 0x1FE0);
    AndEven(a3, 0x0FF0);
    AndEven(a4, 0x07F8);
    AndEven(a5, 0x03FC);
    AndEven(a6, 0x01FE);
    AndEven(a7, 0x00FF);
    assert t == w / 0x100;
    assert BitAnd(w, 0xFF00) == 0x100 * BitAnd(t, 0xFF);
    LowMask(t, 8);
    assert Pow2(8) == 0x100;
    var h := t % 0x100;
    assert BitAnd(w, 0xFF00) == 0x100 * h;
    DivModUnique(BitAnd(w, 0xFF00), 0x100, h, 0);
    assert w == 0x1_0000 * (t / 0x100) + (0x100 * h + w % 0x100);
    DivModUnique(w, 0x1_0000, t / 0x100, 0x100 * h + w % 0x100);
    DivModUnique(w % 0x1_0000, 0x100, h, w % 0x100);
  }

  /** Joining the two bytes of the macro gives back the value modulo 2^16;
      in particular a value in 0..65535 is recovered exactly. */
  lemma {:induction false} SplitJoin(value: nat)
    ensures Join16(Split16(value)) == value % 0x1_0000
    ensures 0 <= value < 0x1_0000 ==> Join16(Split16(value)) == value
  {
    var v := value % 0x1_0000;
    var r := Split16(value);
    assert r[0] == v % 0x100 && r[1] == v / 0x100 by {
      ModOfMod(value, 0x1_0000, 0x100);
    }
    assert v == 0x100 * (v / 0x100) + v % 0x100;
    assert Join16(r) == r[0] as int + 0x100 * (r[1] as int);
    if 0 <= value < 0x1_0000 {
      DivModUnique(value, 0x1_0000, 0, value);
    }
  }

  /** Any two bytes are the split of the value they join to. */
  lemma {:induction false} JoinSplit(b: seq<byte>)
    requires |b| == 2
    ensures Split16(Join16(b)) == b
  {
    var v := Join16(b);
    assert v % 0x1_0000 == v;
    DivModUnique(v, 0x100, b[1], b[0]);
    var r := Split16(v);
    assert r[0] == b[0] && r[1] == b[1];
  }

  /** A value given as `lo + 0x100 * hi` splits into exactly `lo, hi`. */
  lemma {:induction false} SplitBytes(value: nat, lo: byte, hi: byte)
    requires value == lo + 0x100 * hi
    ensures Split16(value) == [lo, hi]
  {
    JoinSplit([lo, hi]);
  }

  /** The macro discards every bit above bit 15: two values give the same
      bytes exactly when they agree modulo 2^16. */
  lemma {:induction false} SplitDependsOnlyOnLow16(a: nat, b: nat)
    ensures Split16(a) == Split16(b) <==> a % 0x1_0000 == b % 0x1_0000
  {
    SplitJoin(a);
    SplitJoin(b);
    ModOfMod(a, 0x1_0000, 0x100);
    ModOfMod(b, 0x1_0000, 0x100);
  }
}
