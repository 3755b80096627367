/** Tagged Ints, their hash, and what boxing leaves of it. Words are naturals
    below 2^64, with shifts and exclusive or by their binary digits. */
module SplitMix {
  const M: nat := 0x1_0000_0000_0000_0000
  const TOP: nat := 0x8000_0000_0000_0000

  type Word = n: nat | n < M

  // ---------------------------------------------------------------------
  // Binary digits
  // ---------------------------------------------------------------------

  function Xor(a: nat, b: nat): nat {
    if a == 0 && b == 0 then 0 else 2 * Xor(a / 2, b / 2) + (a + b) % 2
  }

  function Shr(a: nat, k: nat): nat {
    if k == 0 then a else Shr(a / 2, k - 1)
  }

  function Pow2(k: nat): nat {
    if k == 0 then 1 else 2 * Pow2(k - 1)
  }

  lemma {:induction false} XorSelf(a: nat)
    ensures Xor(a, a) == 0
  {
    if a > 0 {
      XorSelf(a / 2);
    }
  }

  lemma {:induction false} XorZero(a: nat)
    ensures Xor(a, 0) == a
  {
    if a > 0 {
      XorZero(a / 2);
    }
  }

  lemma {:induction false} XorCommutes(a: nat, b: nat)
    ensures Xor(a, b) == Xor(b, a)
  {
    if a != 0 || b != 0 {
      XorCommutes(a / 2, b / 2);
    }
  }

  lemma XorHalf(a: nat, b: nat)
    ensures Xor(a, b) / 2 == Xor(a / 2, b / 2) && Xor(a, b) % 2 == (a + b) % 2
  {
  }

  lemma SameDigits(x: nat, y: nat)
    requires x / 2 == y / 2 && x % 2 == y % 2
    ensures x == y
  {
  }

  lemma Parity(a: nat, b: nat, c: nat, ab: nat, bc: nat)
    requires ab % 2 == (a + b) % 2 && bc % 2 == (b + c) % 2
    ensures (ab + c) % 2 == (a + bc) % 2
  {
  }

  lemma {:induction false} XorAssociates(a: nat, b: nat, c: nat)
    ensures Xor(Xor(a, b), c) == Xor(a, Xor(b, c))
    decreases a + b + c
  {
    if a != 0 || b != 0 || c != 0 {
      XorAssociates(a / 2, b / 2, c / 2);
      var ab, bc := Xor(a, b), Xor(b, c);
      XorHalf(a, b);
      XorHalf(b, c);
      Parity(a, b, c, ab, bc);
      HalvesAgree(ab, c, a, bc);
    }
  }

  lemma HalvesAgree(x: nat, y: nat, z: nat, w: nat)
    requires Xor(x / 2, y / 2) == Xor(z / 2, w / 2) && (x + y) % 2 == (z + w) % 2
    ensures Xor(x, y) == Xor(z, w)
  {
    XorHalf(x, y);
    XorHalf(z, w);
    SameDigits(Xor(x, y), Xor(z, w));
  }

  lemma {:induction false} XorBound(a: nat, b: nat, k: nat)
    requires a < Pow2(k) && b < Pow2(k)
    ensures Xor(a, b) < Pow2(k)
  {
    if k > 0 {
      XorBound(a / 2, b / 2, k - 1);
    }
  }

  lemma {:induction false} ShrXor(a: nat, b: nat, k: nat)
    ensures Shr(Xor(a, b), k) == Xor(Shr(a, k), Shr(b, k))
    decreases k
  {
    if k > 0 {
      XorHalf(a, b);
      ShrXor(a / 2, b / 2, k - 1);
    }
  }

  lemma {:induction false} ShrShr(a: nat, j: nat, k: nat)
    ensures Shr(Shr(a, j), k) == Shr(a, j + k)
    decreases j
  {
    if j > 0 {
      ShrShr(a / 2, j - 1, k);
    }
  }

  lemma {:induction false} ShrOut(a: nat, j: nat, k: nat)
    requires a < Pow2(j) && j <= k
    ensures Shr(a, k) == 0
    decreases k
  {
    if j > 0 {
      ShrOut(a / 2, j - 1, k - 1);
    } else if k > 0 {
      ShrOut(0, 0, k - 1);
    }
  }

  lemma {:induction false} ShrSmaller(a: nat, k: nat)
    ensures Shr(a, k) <= a
    decreases k
  {
    if k > 0 {
      ShrSmaller(a / 2, k - 1);
    }
  }

  lemma Pow2Of64()
    ensures Pow2(64) == M
  {
    Pow2Adds(32, 32);
    Pow2Adds(16, 16);
    Pow2Adds(8, 8);
    assert Pow2(8) == 256;
  }

  lemma {:induction false} Pow2Adds(j: nat, k: nat)
    ensures Pow2(j + k) == Pow2(j) * Pow2(k)
  {
    if j > 0 {
      Pow2Adds(j - 1, k);
    }
  }

  // ---------------------------------------------------------------------
  // Invertible steps
  // ---------------------------------------------------------------------

  lemma XorFits(x: Word, y: Word)
    ensures Xor(x, y) < M
  {
    Pow2Of64();
    XorBound(x, y, 64);
  }

  /** `x ^ (x >> k)`. */
  function XorShift(x: Word, k: nat): Word {
    ShrSmaller(x, k);
    XorFits(x, Shr(x, k));
    Xor(x, Shr(x, k))
  }

  /** Undoing it takes the word and two of its shifts, if three shifts leave
      nothing. */
  function Unshift(y: Word, k: nat): Word {
    ShrSmaller(y, k);
    ShrSmaller(y, 2 * k);
    XorFits(y, Shr(y, k));
    XorFits(Xor(y, Shr(y, k)), Shr(y, 2 * k));
    Xor(Xor(y, Shr(y, k)), Shr(y, 2 * k))
  }

  /** In a sum of digits what occurs twice cancels. */
  lemma Cancel(a: nat, b: nat)
    ensures Xor(Xor(a, b), b) == a && Xor(b, Xor(b, a)) == a
  {
    XorAssociates(a, b, b);
    XorAssociates(b, b, a);
    XorSelf(b);
    XorZero(a);
    XorCommutes(0, a);
  }

  lemma Telescope(x: nat, a: nat, b: nat)
    ensures Xor(Xor(Xor(x, a), Xor(a, b)), b) == x
  {
    XorAssociates(Xor(x, a), a, b);
    Cancel(x, a);
    Cancel(x, b);
  }

  lemma ShiftsOfXorShift(x: Word, k: nat)
    requires 64 <= 3 * k
    ensures Shr(XorShift(x, k), k) == Xor(Shr(x, k), Shr(x, 2 * k))
    ensures Shr(XorShift(x, k), 2 * k) == Shr(x, 2 * k)
  {
    ShrXor(x, Shr(x, k), k);
    ShrXor(x, Shr(x, k), 2 * k);
    ShrShr(x, k, k);
    ShrShr(x, k, 2 * k);
    Pow2Of64();
    ShrOut(x, 64, 3 * k);
    XorZero(Shr(x, 2 * k));
  }

  lemma UnshiftXorShift(x: Word, k: nat)
    requires 64 <= 3 * k
    ensures Unshift(XorShift(x, k), k) == x
  {
    ShiftsOfXorShift(x, k);
    Telescope(x, Shr(x, k), Shr(x, 2 * k));
  }

  lemma XorShiftUnshift(y: Word, k: nat)
    requires 64 <= 3 * k
    ensures XorShift(Unshift(y, k), k) == y
  {
    var a, b := Shr(y, k), Shr(y, 2 * k);
    ShrXor(Xor(y, a), b, k);
    ShrXor(y, a, k);
    ShrShr(y, k, k);
    ShrShr(y, 2 * k, k);
    Pow2Of64();
    ShrOut(y, 64, 3 * k);
    XorZero(Xor(a, b));
    XorAssociates(y, a, b);
    Cancel(y, Xor(a, b));
  }

  /** Multiplication modulo 2^64. */
  function Times(x: Word, c: Word): Word { (x * c) % M }

  lemma ModUnique(x: Word, k: int)
    ensures (x + M * k) % M == x
  {
    var q := (x + M * k) / M;
    assert x + M * k == M * q + (x + M * k) % M;
    assert x - (x + M * k) % M == M * (q - k);
  }

  /** An odd multiplier is undone by its inverse. */
  lemma TimesInverse(x: Word, c: Word, d: Word, q: nat)
    requires c * d == 1 + M * q
    ensures Times(Times(x, c), d) == x
  {
    var r, t := (x * c) / M, (x * c) % M;
    assert x * c == M * r + t;
    calc {
      t * d;
      (x * c - M * r) * d;
      x * c * d - M * r * d;
      x * (c * d) - M * r * d;
      x * (1 + M * q) - M * r * d;
      x + M * (x * q - r * d);
    }
    ModUnique(x, x * q - r * d);
  }

  // ---------------------------------------------------------------------
  // The finaliser
  // ---------------------------------------------------------------------

  const A: Word := 0xbf58476d1ce4e5b9
  const B: Word := 0x94d049bb133111eb
  const INVERSE_A: Word := 0x96de1b173f119089
  const INVERSE_B: Word := 0x319642b2d24d8ec3

  function Mix(x: Word): Word {
    XorShift(Times(XorShift(Times(XorShift(x, 30), A), 27), B), 31)
  }

  /** Each step undone, last first. */
  function Unmix(y: Word): Word {
    Unshift(Times(Unshift(Times(Unshift(y, 31), INVERSE_B), 27), INVERSE_A), 30)
  }

  lemma Inverses()
    ensures A * INVERSE_A == 1 + M * 0x70c3bca78f27f46c
    ensures B * INVERSE_B == 1 + M * 0x1cd336eda85f1453
  {
  }

  /** The finaliser is a bijection on 64-bit words. */
  lemma UnmixMix(x: Word)
    ensures Unmix(Mix(x)) == x
  {
    var a := XorShift(x, 30);
    var b := Times(a, A);
    var c := XorShift(b, 27);
    var d := Times(c, B);
    Inverses();
    UnshiftXorShift(d, 31);
    TimesInverse(c, B, INVERSE_B, 0x1cd336eda85f1453);
    UnshiftXorShift(b, 27);
    TimesInverse(a, A, INVERSE_A, 0x70c3bca78f27f46c);
    UnshiftXorShift(x, 30);
  }

  lemma MixUnmix(y: Word)
    ensures Mix(Unmix(y)) == y
  {
    var d := Unshift(y, 31);
    var c := Times(d, INVERSE_B);
    var b := Unshift(c, 27);
    var a := Times(b, INVERSE_A);
    Inverses();
    XorShiftUnshift(a, 30);
    TimesInverse(b, INVERSE_A, A, 0x70c3bca78f27f46c);
    XorShiftUnshift(c, 27);
    TimesInverse(d, INVERSE_B, B, 0x1cd336eda85f1453);
    XorShiftUnshift(y, 31);
  }

  // ---------------------------------------------------------------------
  // Boxing
  // ---------------------------------------------------------------------

  /** `ring_box_int`: shift left, losing the top bit, and set the tag bit. */
  function Box(v: Word): Word { (2 * v) % M + 1 }

  predicate Tagged(p: Word) { p % 2 == 1 }

  /** `ring_unbox_int` of a tagged pointer: the shift keeps the sign bit. */
  function Unbox(p: Word): Word { p / 2 + if p < TOP then 0 else TOP }

  /** The number a word stands for as a signed 64-bit integer. */
  function Signed(v: Word): int { if v < TOP then v else v - M }

  predicate Is63Bit(v: Word) { -0x4000_0000_0000_0000 <= Signed(v) < 0x4000_0000_0000_0000 }

  /** Boxing loses nothing exactly on signed 63-bit numbers. */
  lemma BoxRoundTrip(v: Word)
    ensures Tagged(Box(v))
    ensures Unbox(Box(v)) == v <==> Is63Bit(v)
  {
  }

  lemma UnboxRoundTrip(p: Word)
    requires Tagged(p)
    ensures Box(Unbox(p)) == p && Is63Bit(Unbox(p))
  {
  }

  function Flip(v: Word): Word { if v < TOP then v + TOP else v - TOP }

  /** Two words share a box exactly when they differ in the top bit at most. */
  lemma BoxForgetsTopBit(v: Word, w: Word)
    ensures Box(v) == Box(w) <==> v == w || v == Flip(w)
  {
  }

  // ---------------------------------------------------------------------
  // The hash of an Int
  // ---------------------------------------------------------------------

  /** `ring_cl_hash_int`. */
  method HashInt(p: Word) returns (h: Word)
    ensures h == Hash(p)
  {
    var x := Unbox(p);
    x := Times(XorShift(x, 30), A);
    x := Times(XorShift(x, 27), B);
    x := XorShift(x, 31);
    h := Box(x);
  }

  function Hash(p: Word): Word { Box(Mix(Unbox(p))) }

  /** The only other word that could hash like this Int. */
  function Twin(p: Word): Word { Unmix(Flip(Mix(Unbox(p)))) }

  /** Ints share a hash exactly when they are equal or twins. */
  lemma SameHash(p: Word, q: Word)
    requires Tagged(p) && Tagged(q)
    ensures Hash(p) == Hash(q) <==> p == q || Unbox(q) == Twin(p)
  {
    UnboxRoundTrip(p);
    UnboxRoundTrip(q);
    UnmixMix(Unbox(p));
    UnmixMix(Unbox(q));
    MixUnmix(Flip(Mix(Unbox(p))));
    BoxForgetsTopBit(Mix(Unbox(q)), Mix(Unbox(p)));
  }

  /** At most two Ints share a hash. */
  lemma NoTriples(p: Word, q: Word, r: Word)
    requires Tagged(p) && Tagged(q) && Tagged(r)
    requires Hash(p) == Hash(q) == Hash(r)
    ensures p == q || q == r || p == r
  {
    SameHash(p, q);
    SameHash(p, r);
    UnboxRoundTrip(q);
    UnboxRoundTrip(r);
  }

  /** An Int shares its hash with another exactly when its twin word is a
      63-bit number. */
  lemma TwinExists(p: Word)
    requires Tagged(p)
    ensures Is63Bit(Twin(p)) <==> exists q: Word :: Tagged(q) && q != p && Hash(q) == Hash(p)
  {
    var q := Box(Twin(p));
    BoxRoundTrip(Twin(p));
    MixUnmix(Flip(Mix(Unbox(p))));
    SameHash(p, q);
    if q': Word :| Tagged(q') && q' != p && Hash(q') == Hash(p) {
      SameHash(p, q');
      UnboxRoundTrip(q');
    }
  }
}
