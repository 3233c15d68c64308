/** The catalog checksum: a 32-bit FNV-1a hash computed with JavaScript's signed operators. */
module Fnv {
  import opened JsText

  const OFFSET_BASIS: Word := 0x811c9dc5

  /** A UTF-16 code unit. */
  type Unit = n: nat | n < 0x1_0000

  type Word = n: nat | n < 0x1_0000_0000

  // ----- JavaScript's 32-bit operators -----

  /** The signed 32-bit number congruent to `x`. */
  function ToInt32(x: int): (r: int)
    ensures -0x8000_0000 <= r < 0x8000_0000
  {
    x - 0x1_0000_0000 * ((x + 0x8000_0000) / 0x1_0000_0000)
  }

  /** `x >>> 0` */
  function ToUint32(x: int): Word
  {
    x % 0x1_0000_0000
  }

  function Pow2(k: nat): (p: nat)
    ensures p > 0
  {
    if k == 0 then 1 else 2 * Pow2(k - 1)
  }

  /** `x` doubled `k` times. */
  function Scaled(x: int, k: nat): int
  {
    if k == 0 then x else 2 * Scaled(x, k - 1)
  }

  /** `x << k` */
  function Shl(x: int, k: nat): int
  {
    ToInt32(Scaled(x, k))
  }

  /** Bitwise exclusive or of two naturals. */
  function Xor(a: nat, b: nat): nat
    decreases a + b
  {
    if a == 0 && b == 0 then 0
    else 2 * Xor(a / 2, b / 2) + (if a % 2 == b % 2 then 0 else 1)
  }

  /** `a ^ b` */
  function SignedXor(a: int, b: int): int
  {
    ToInt32(Xor(ToUint32(a), ToUint32(b)))
  }

  function PadStart(text: string, width: nat, fill: char): (r: string)
    ensures |r| == if |text| < width then width else |text|
  {
    seq(if |text| < width then width - |text| else 0, _ => fill) + text
  }

  // ----- the reference: FNV-1a over code units -----

  function Step(h: Word, u: Unit): Word
  {
    (Xor(h, u) * 16777619) % 0x1_0000_0000
  }

  function Hash(units: seq<Unit>, h: Word): Word
  {
    if units == [] then h else Hash(units[1..], Step(h, units[0]))
  }

  function Checksum(units: seq<Unit>): string
  {
    PadStart(Digits(Hash(units, OFFSET_BASIS), 16), 8, '0')
  }

  lemma {:induction false} Pow2Add(a: nat, b: nat)
    ensures Pow2(a + b) == Pow2(a) * Pow2(b)
  {
    if a > 0 {
      Pow2Add(a - 1, b);
    }
  }

  lemma Pow2Values()
    ensures Pow2(1) == 2 && Pow2(4) == 16 && Pow2(7) == 128 && Pow2(8) == 256
    ensures Pow2(24) == 16777216 && Pow2(32) == 0x1_0000_0000
  {
    Pow2Add(4, 4);
    Pow2Add(4, 3);
    Pow2Add(8, 8);
    Pow2Add(16, 8);
    Pow2Add(24, 8);
  }

  lemma {:induction false} XorBound(a: nat, b: nat, k: nat)
    requires a < Pow2(k) && b < Pow2(k)
    ensures Xor(a, b) < Pow2(k)
  {
    if k > 0 {
      XorBound(a / 2, b / 2, k - 1);
    }
  }

  lemma {:induction false} XorUndoes(a: nat, b: nat)
    ensures Xor(Xor(a, b), b) == a
    decreases a + b
  {
    if a != 0 || b != 0 {
      XorUndoes(a / 2, b / 2);
      var x := Xor(a, b);
      assert x / 2 == Xor(a / 2, b / 2) && (x % 2 == 0 <==> a % 2 == b % 2);
    }
  }

  lemma {:induction false} XorCommutes(a: nat, b: nat)
    ensures Xor(a, b) == Xor(b, a)
    decreases a + b
  {
    if a != 0 || b != 0 {
      XorCommutes(a / 2, b / 2);
    }
  }

  lemma WordXor(h: Word, u: Word)
    ensures Xor(h, u) < 0x1_0000_0000
  {
    Pow2Values();
    XorBound(h, u, 32);
  }

  lemma Congruent(a: int, b: int, t: int)
    requires a == b - 0x1_0000_0000 * t
    ensures ToUint32(a) == b % 0x1_0000_0000
  {
  }

  lemma {:induction false} ScaledIsProduct(x: int, k: nat)
    ensures Scaled(x, k) == x * Pow2(k)
  {
    if k > 0 {
      ScaledIsProduct(x, k - 1);
    }
  }

  /** A shift is a product with a power of two, less some multiple of 2^32. */
  lemma Shifted(x: int, k: nat, p: int) returns (q: int)
    requires Pow2(k) == p
    ensures Shl(x, k) == x * p - 0x1_0000_0000 * q
  {
    ScaledIsProduct(x, k);
    q := (Scaled(x, k) + 0x8000_0000) / 0x1_0000_0000;
  }

  function ShiftAdd(x: int): int
  {
    x + (Shl(x, 1) + Shl(x, 4) + Shl(x, 7) + Shl(x, 8) + Shl(x, 24))
  }

  /** One round of shifts and adds is one multiplication by the FNV prime modulo 2^32. */
  lemma ShiftAddIsMultiply(x: int)
    ensures ToUint32(ShiftAdd(x)) == (x * 16777619) % 0x1_0000_0000
  {
    Pow2Values();
    var q1 := Shifted(x, 1, 2);
    var q4 := Shifted(x, 4, 16);
    var q7 := Shifted(x, 7, 128);
    var q8 := Shifted(x, 8, 256);
    var q24 := Shifted(x, 24, 16777216);
    Congruent(ShiftAdd(x), x * 16777619, q1 + q4 + q7 + q8 + q24);
  }

  /** `fnv1a32` */
  method Fnv1a32(units: seq<Unit>) returns (r: string)
    ensures r == Checksum(units)
  {
    var h: Word := OFFSET_BASIS;
    assert units[0..] == units;
    for i := 0 to |units|
      invariant Hash(units[i..], h) == Hash(units, OFFSET_BASIS)
    {
      var x := SignedXor(h, units[i]);
      JavaScriptStep(h, units[i]);
      assert units[i..][1..] == units[i + 1..];
      h := ToUint32(ShiftAdd(x));
    }
    r := PadStart(Digits(h, 16), 8, '0');
  }

  /** One round of the loop, over signed operands, is one step of the reference. */
  lemma JavaScriptStep(h: Word, u: Unit)
    ensures ToUint32(ShiftAdd(SignedXor(h, u))) == Step(h, u)
  {
    SignedXorOfWords(h, u);
    ShiftAddIsMultiply(SignedXor(h, u));
    SignedIsUnsigned(Xor(h, u));
  }

  lemma SignedXorOfWords(h: Word, u: Unit)
    ensures Xor(h, u) < 0x1_0000_0000 && SignedXor(h, u) == ToInt32(Xor(h, u))
  {
    WordXor(h, u);
    WordIsItself(h);
    WordIsItself(u);
  }

  lemma WordIsItself(x: Word)
    ensures ToUint32(x) == x
  {
  }

  lemma SignedIsUnsigned(y: Word)
    ensures (ToInt32(y) * 16777619) % 0x1_0000_0000 == (y * 16777619) % 0x1_0000_0000
  {
    if y >= 0x8000_0000 {
      assert ToInt32(y) == y - 0x1_0000_0000;
      Congruent(ToInt32(y) * 16777619, y * 16777619, 16777619);
    } else {
      assert ToInt32(y) == y;
    }
  }

  // ----- no collision between strings that differ in one unit -----

  /** The state before a step, from the state after it; 899433627 is the inverse of the
      FNV prime 16777619 modulo 2^32. */
  function Unstep(h: Word, u: Unit): nat
  {
    Xor((h * 899433627) % 0x1_0000_0000, u)
  }

  lemma ModuloOf(a: int, x: Word, t: int)
    requires a == x + 0x1_0000_0000 * t
    ensures a % 0x1_0000_0000 == x
  {
  }

  lemma MultiplyUndone(x: Word)
    ensures ((x * 16777619) % 0x1_0000_0000 * 899433627) % 0x1_0000_0000 == x
  {
    var q := x * 16777619 / 0x1_0000_0000;
    var y := (x * 16777619) % 0x1_0000_0000;
    assert y == x * 16777619 - 0x1_0000_0000 * q;
    ModuloOf(y * 899433627, x, 3513497 * x - 899433627 * q);
  }

  lemma MultiplyRedone(x: Word)
    ensures ((x * 899433627) % 0x1_0000_0000 * 16777619) % 0x1_0000_0000 == x
  {
    var q := x * 899433627 / 0x1_0000_0000;
    var y := (x * 899433627) % 0x1_0000_0000;
    assert y == x * 899433627 - 0x1_0000_0000 * q;
    ModuloOf(y * 16777619, x, 3513497 * x - 16777619 * q);
  }

  /** Each step is a bijection on 32-bit states, for every unit. */
  lemma StepIsABijection(h: Word, u: Unit)
    ensures Unstep(h, u) < 0x1_0000_0000
    ensures Step(Unstep(h, u), u) == h
    ensures Unstep(Step(h, u), u) == h
  {
    WordXor((h * 899433627) % 0x1_0000_0000, u);
    XorUndoes((h * 899433627) % 0x1_0000_0000, u);
    MultiplyRedone(h);
    WordXor(h, u);
    MultiplyUndone(Xor(h, u));
    XorUndoes(h, u);
  }

  lemma StepSeparatesUnits(h: Word, u: Unit, v: Unit)
    requires Step(h, u) == Step(h, v)
    ensures u == v
  {
    WordXor(h, u);
    WordXor(h, v);
    MultiplyUndone(Xor(h, u));
    MultiplyUndone(Xor(h, v));
    XorCommutes(h, u);
    XorCommutes(h, v);
    XorUndoes(u, h);
    XorUndoes(v, h);
  }

  /** A whole run of steps separates start states. */
  lemma {:induction false} HashSeparatesStates(units: seq<Unit>, g: Word, h: Word)
    requires Hash(units, g) == Hash(units, h)
    ensures g == h
  {
    if units != [] {
      HashSeparatesStates(units[1..], Step(g, units[0]), Step(h, units[0]));
      StepIsABijection(g, units[0]);
      StepIsABijection(h, units[0]);
    }
  }

  lemma {:induction false} ZerosReadAsNothing(k: nat, text: string)
    ensures ReadDigits(seq(k, _ => '0') + text, 16, 0) == ReadDigits(text, 16, 0)
  {
    if k == 0 {
      assert seq(0, _ => '0') + text == text;
    } else {
      ZerosReadAsNothing(k - 1, text);
      assert (seq(k, _ => '0') + text)[1..] == seq(k - 1, _ => '0') + text;
    }
  }

  lemma {:induction false} HexLength(n: nat, k: nat)
    requires k > 0 && n < Pow2(4 * k)
    ensures |Digits(n, 16)| <= k
  {
    if n >= 16 {
      Pow2Values();
      Pow2Add(4, 4 * k - 4);
      HexLength(n / 16, k - 1);
    }
  }

  lemma PaddedHex(h: Word)
    ensures |PadStart(Digits(h, 16), 8, '0')| == 8
    ensures ReadDigits(PadStart(Digits(h, 16), 8, '0'), 16, 0) == (h, "")
  {
    var text := Digits(h, 16);
    Pow2Values();
    HexLength(h, 8);
    ZerosReadAsNothing(8 - |text|, text);
    ReadPrinted(h, 16, "");
    assert text + "" == text;
  }

  /** The padded hexadecimal form has eight digits and stands for the hash alone. */
  lemma ChecksumStandsForHash(units: seq<Unit>)
    ensures |Checksum(units)| == 8
    ensures ReadDigits(Checksum(units), 16, 0) == (Hash(units, OFFSET_BASIS), "")
  {
    PaddedHex(Hash(units, OFFSET_BASIS));
  }

  lemma {:induction false} HashAppend(a: seq<Unit>, b: seq<Unit>, h: Word)
    ensures Hash(a + b, h) == Hash(b, Hash(a, h))
  {
    if a == [] {
      assert a + b == b;
    } else {
      HashAppend(a[1..], b, Step(h, a[0]));
      assert (a + b)[1..] == a[1..] + b;
    }
  }

  /** Two strings that differ in exactly one unit never share a checksum. */
  lemma OneUnitChangesTheChecksum(units: seq<Unit>, i: nat, u: Unit)
    requires i < |units| && units[i] != u
    ensures Checksum(units) != Checksum(units[i := u])
  {
    var other := units[i := u];
    var before, after := units[..i], units[i + 1..];
    var h := Hash(before, OFFSET_BASIS);
    assert units == before + ([units[i]] + after);
    assert other == before + ([u] + after);
    HashAppend(before, [units[i]] + after, OFFSET_BASIS);
    HashAppend(before, [u] + after, OFFSET_BASIS);
    assert ([units[i]] + after)[1..] == after && ([u] + after)[1..] == after;
    if Checksum(units) == Checksum(other) {
      ChecksumStandsForHash(units);
      ChecksumStandsForHash(other);
      HashSeparatesStates(after, Step(h, units[i]), Step(h, u));
      StepSeparatesUnits(h, units[i], u);
      assert false;
    }
  }

  /** Two checksums that the FNV reference lists: of no unit, and of the letter a. */
  lemma KnownChecksums(a: Unit)
    requires a == 0x61
    ensures Checksum([]) == "811c9dc5"
    ensures Checksum([a]) == "e40c292c"
  {
    KnownStep(OFFSET_BASIS, a);
    assert [a][1..] == [];
    assert Hash([a], OFFSET_BASIS) == 0xe40c292c;
    KnownDigits();
  }

  lemma {:induction false} XorZero(a: nat)
    ensures Xor(a, 0) == a
  {
    if a != 0 {
      XorZero(a / 2);
    }
  }

  lemma XorLast(a: nat, b: nat, higher: nat)
    requires (a != 0 || b != 0) && Xor(a / 2, b / 2) == higher
    ensures Xor(a, b) == 2 * higher + (if a % 2 == b % 2 then 0 else 1)
  {
  }

  lemma KnownXor(h: Word, a: Unit)
    requires h == 0x811c9dc5 && a == 0x61
    ensures Xor(h, a) == 0x811c9da4
  {
    XorZero(16922939);
    XorLast(33845879, 1, 16922939);
    XorLast(67691758, 3, 33845878);
    XorLast(135383516, 6, 67691757);
    XorLast(270767032, 12, 135383514);
    XorLast(541534065, 24, 270767028);
    XorLast(1083068130, 48, 541534057);
    XorLast(2166136261, 97, 1083068114);
  }

  lemma KnownProduct(x: Word)
    requires x == 0x811c9da4
    ensures (x * 16777619) % 0x1_0000_0000 == 0xe40c292c
  {
    ModuloOf(x * 16777619, 0xe40c292c, 8461672);
  }

  lemma KnownStep(h: Word, a: Unit)
    requires h == 0x811c9dc5 && a == 0x61
    ensures Step(h, a) == 0xe40c292c
  {
    KnownXor(h, a);
    KnownProduct(Xor(h, a));
  }

  lemma KnownDigits()
    ensures Digits(0x811c9dc5, 16) == "811c9dc5"
    ensures Digits(0xe40c292c, 16) == "e40c292c"
  {
    assert Digits(0x8, 16) == "8";
    assert Digits(0x81, 16) == "81";
    assert Digits(0x811, 16) == "811";
    assert Digits(0x811c, 16) == "811c";
    assert Digits(0x811c9, 16) == "811c9";
    assert Digits(0x811c9d, 16) == "811c9d";
    assert Digits(0x811c9dc, 16) == "811c9dc";
    assert Digits(0xe, 16) == "e";
    assert Digits(0xe4, 16) == "e4";
    assert Digits(0xe40, 16) == "e40";
    assert Digits(0xe40c, 16) == "e40c";
    assert Digits(0xe40c2, 16) == "e40c2";
    assert Digits(0xe40c29, 16) == "e40c29";
    assert Digits(0xe40c292, 16) == "e40c292";
  }
}
