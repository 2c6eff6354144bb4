/** Words bit by bit: the operators the hash functions are built from. */
module WordBits {

  // ----- 32-bit words -----

  /** Bit `i`, counted from the low end. */
  predicate Bit32(x: bv32, i: bv6)
    requires i < 32
  {
    (x >> i) & 1 == 1
  }

  function And32(x: bv32, y: bv32): bv32 { x & y }

  function Or32(x: bv32, y: bv32): bv32 { x | y }

  function Xor32(x: bv32, y: bv32): bv32 { x ^ y }

  function Not32(x: bv32): bv32 { !x }

  function Shr32(x: bv32, n: bv6): bv32
    requires n <= 32
  {
    x >> n
  }

  lemma OrBit32(x: bv32, y: bv32, i: bv6)
    requires i < 32
    ensures Bit32(Or32(x, y), i) == (Bit32(x, i) || Bit32(y, i))
  {
    assert ((x | y) >> i) & 1 == ((x >> i) & 1) | ((y >> i) & 1);
  }

  lemma XorBit32(x: bv32, y: bv32, i: bv6)
    requires i < 32
    ensures Bit32(Xor32(x, y), i) == (Bit32(x, i) != Bit32(y, i))
  {
    assert ((x ^ y) >> i) & 1 == ((x >> i) & 1) ^ ((y >> i) & 1);
  }

  lemma Ones32(x: bv32, i: bv6)
    requires i < 32
    ensures Bit32(0xFFFF_FFFF, i) && Not32(x) == Xor32(x, 0xFFFF_FFFF)
  {
  }

  lemma NotBit32(x: bv32, i: bv6)
    requires i < 32
    ensures Bit32(Not32(x), i) == !Bit32(x, i)
  {
    hide Bit32, Not32, Xor32;
    Ones32(x, i);
    XorBit32(x, 0xFFFF_FFFF, i);
  }

  lemma Dual32(x: bv32, y: bv32)
    ensures And32(x, y) == Not32(Or32(Not32(x), Not32(y)))
  {
    assert x & y == !(!x | !y);
  }

  lemma AndBit32(x: bv32, y: bv32, i: bv6)
    requires i < 32
    ensures Bit32(And32(x, y), i) == (Bit32(x, i) && Bit32(y, i))
  {
    hide Bit32, And32, Or32, Not32;
    NotBit32(x, i);
    NotBit32(y, i);
    OrBit32(Not32(x), Not32(y), i);
    NotBit32(Or32(Not32(x), Not32(y)), i);
    Dual32(x, y);
  }

  lemma BitIs32(x: bv32, i: bv6)
    requires i < 32
    ensures Bit32(x, i) <==> (x >> i) & 1 == 1
  {
  }

  lemma FromAbove32(x: bv32, n: bv6, i: bv6)
    requires 0 < n < 32 && i < 32 && i + n < 32
    ensures (((x >> n) | (x << (32 - n))) >> i) & 1 == 1 <==> (x >> (i + n)) & 1 == 1
  {
  }

  lemma FromBelow32(x: bv32, n: bv6, i: bv6)
    requires 0 < n < 32 && i < 32 && i + n >= 32
    ensures (((x >> n) | (x << (32 - n))) >> i) & 1 == 1 <==> (x >> (i + n - 32)) & 1 == 1
  {
  }

  lemma BitAbove32(x: bv32, n: bv6, i: bv6)
    requires 0 < n < 32 && i < 32 && i + n < 32
    ensures Bit32((x >> n) | (x << (32 - n)), i) == Bit32(x, i + n)
  {
    hide Bit32;
    FromAbove32(x, n, i);
    BitIs32((x >> n) | (x << (32 - n)), i);
    BitIs32(x, i + n);
  }

  lemma BitBelow32(x: bv32, n: bv6, i: bv6)
    requires 0 < n < 32 && i < 32 && i + n >= 32
    ensures Bit32((x >> n) | (x << (32 - n)), i) == Bit32(x, i + n - 32)
  {
    hide Bit32;
    FromBelow32(x, n, i);
    BitIs32((x >> n) | (x << (32 - n)), i);
    BitIs32(x, i + n - 32);
  }

  /** A rotation to the right brings bit i + n to place i, around the word. */
  lemma Rotated32(x: bv32, n: bv6, i: bv6)
    requires 0 < n < 32 && i < 32
    ensures Bit32((x >> n) | (x << (32 - n)), i) == Bit32(x, (i + n) % 32)
  {
    hide Bit32;
    if i + n < 32 {
      BitAbove32(x, n, i);
      assert (i + n) % 32 == i + n;
    } else {
      BitBelow32(x, n, i);
      assert (i + n) % 32 == i + n - 32;
    }
  }

  lemma Shifted32(x: bv32, n: bv6, i: bv6)
    requires (n == 3 || n == 10) && i < 32
    ensures Bit32(Shr32(x, n), i) == (i + n < 32 && Bit32(x, i + n))
  {
    hide Bit32;
    ShiftedBits32(x, i);
    if n == 3 {
      assert Shr32(x, 3) == x >> 3;
    } else {
      assert Shr32(x, 10) == x >> 10;
    }
  }

  lemma ShiftedBits32(x: bv32, i: bv6)
    requires i < 32
    ensures Bit32(x >> 3, i) == (i + 3 < 32 && Bit32(x, i + 3))
    ensures Bit32(x >> 10, i) == (i + 10 < 32 && Bit32(x, i + 10))
  {
  }

  // The operators by their names.
  lemma AndIs32(x: bv32, y: bv32)
    ensures And32(x, y) == x & y
  {
  }

  lemma NotIs32(x: bv32)
    ensures Not32(x) == !x
  {
  }

  lemma XorIs32(x: bv32, y: bv32)
    ensures Xor32(x, y) == x ^ y
  {
  }

  lemma ShrIs32(x: bv32, n: bv6)
    requires n <= 32
    ensures Shr32(x, n) == x >> n
  {
  }

  lemma ThreeXor32(a: bv32, b: bv32, c: bv32)
    ensures a ^ b ^ c == Xor32(Xor32(a, b), c)
  {
    hide Xor32;
    assert Xor32(a ^ b, c) == a ^ b ^ c by { XorIs32(a ^ b, c); }
    XorIs32(a, b);
  }

  lemma TwoAnds32(x: bv32, y: bv32, z: bv32)
    ensures (x & y) ^ (!x & z) == Xor32(And32(x, y), And32(Not32(x), z))
  {
    hide And32, Xor32, Not32;
    XorIs32(x & y, !x & z);
    AndIs32(x, y);
    NotIs32(x);
    AndIs32(!x, z);
  }

  lemma ThreeAnds32(x: bv32, y: bv32, z: bv32)
    ensures (x & y) ^ (x & z) ^ (y & z) == Xor32(Xor32(And32(x, y), And32(x, z)), And32(y, z))
  {
    hide And32, Xor32;
    ThreeXor32(x & y, x & z, y & z);
    AndIs32(x, y);
    AndIs32(x, z);
    AndIs32(y, z);
  }

  // ----- 64-bit words -----

  /** Bit `i`, counted from the low end. */
  predicate Bit64(x: bv64, i: bv7)
    requires i < 64
  {
    (x >> i) & 1 == 1
  }

  function And64(x: bv64, y: bv64): bv64 { x & y }

  function Or64(x: bv64, y: bv64): bv64 { x | y }

  function Xor64(x: bv64, y: bv64): bv64 { x ^ y }

  function Not64(x: bv64): bv64 { !x }

  function Shr64(x: bv64, n: bv7): bv64
    requires n <= 64
  {
    x >> n
  }

  lemma OrBit64(x: bv64, y: bv64, i: bv7)
    requires i < 64
    ensures Bit64(Or64(x, y), i) == (Bit64(x, i) || Bit64(y, i))
  {
    assert ((x | y) >> i) & 1 == ((x >> i) & 1) | ((y >> i) & 1);
  }

  lemma XorBit64(x: bv64, y: bv64, i: bv7)
    requires i < 64
    ensures Bit64(Xor64(x, y), i) == (Bit64(x, i) != Bit64(y, i))
  {
    assert ((x ^ y) >> i) & 1 == ((x >> i) & 1) ^ ((y >> i) & 1);
  }

  lemma Ones64(x: bv64, i: bv7)
    requires i < 64
    ensures Bit64(0xFFFF_FFFF_FFFF_FFFF, i) && Not64(x) == Xor64(x, 0xFFFF_FFFF_FFFF_FFFF)
  {
  }

  lemma NotBit64(x: bv64, i: bv7)
    requires i < 64
    ensures Bit64(Not64(x), i) == !Bit64(x, i)
  {
    hide Bit64, Not64, Xor64;
    Ones64(x, i);
    XorBit64(x, 0xFFFF_FFFF_FFFF_FFFF, i);
  }

  lemma Dual64(x: bv64, y: bv64)
    ensures And64(x, y) == Not64(Or64(Not64(x), Not64(y)))
  {
    assert x & y == !(!x | !y);
  }

  lemma AndBit64(x: bv64, y: bv64, i: bv7)
    requires i < 64
    ensures Bit64(And64(x, y), i) == (Bit64(x, i) && Bit64(y, i))
  {
    hide Bit64, And64, Or64, Not64;
    NotBit64(x, i);
    NotBit64(y, i);
    OrBit64(Not64(x), Not64(y), i);
    NotBit64(Or64(Not64(x), Not64(y)), i);
    Dual64(x, y);
  }

  lemma BitIs64(x: bv64, i: bv7)
    requires i < 64
    ensures Bit64(x, i) <==> (x >> i) & 1 == 1
  {
  }

  lemma FromAbove64(x: bv64, n: bv7, i: bv7)
    requires 0 < n < 64 && i < 64 && i + n < 64
    ensures (((x >> n) | (x << (64 - n))) >> i) & 1 == 1 <==> (x >> (i + n)) & 1 == 1
  {
  }

  lemma FromBelow64(x: bv64, n: bv7, i: bv7)
    requires 0 < n < 64 && i < 64 && i + n >= 64
    ensures (((x >> n) | (x << (64 - n))) >> i) & 1 == 1 <==> (x >> (i + n - 64)) & 1 == 1
  {
  }

  lemma BitAbove64(x: bv64, n: bv7, i: bv7)
    requires 0 < n < 64 && i < 64 && i + n < 64
    ensures Bit64((x >> n) | (x << (64 - n)), i) == Bit64(x, i + n)
  {
    hide Bit64;
    FromAbove64(x, n, i);
    BitIs64((x >> n) | (x << (64 - n)), i);
    BitIs64(x, i + n);
  }

  lemma BitBelow64(x: bv64, n: bv7, i: bv7)
    requires 0 < n < 64 && i < 64 && i + n >= 64
    ensures Bit64((x >> n) | (x << (64 - n)), i) == Bit64(x, i + n - 64)
  {
    hide Bit64;
    FromBelow64(x, n, i);
    BitIs64((x >> n) | (x << (64 - n)), i);
    BitIs64(x, i + n - 64);
  }

  /** A rotation to the right brings bit i + n to place i, around the word. */
  lemma Rotated64(x: bv64, n: bv7, i: bv7)
    requires 0 < n < 64 && i < 64
    ensures Bit64((x >> n) | (x << (64 - n)), i) == Bit64(x, (i + n) % 64)
  {
    hide Bit64;
    if i + n < 64 {
      BitAbove64(x, n, i);
      assert (i + n) % 64 == i + n;
    } else {
      BitBelow64(x, n, i);
      assert (i + n) % 64 == i + n - 64;
    }
  }

  lemma Shifted64(x: bv64, n: bv7, i: bv7)
    requires (n == 7 || n == 6) && i < 64
    ensures Bit64(Shr64(x, n), i) == (i + n < 64 && Bit64(x, i + n))
  {
    hide Bit64;
    ShiftedBits64(x, i);
    if n == 7 {
      assert Shr64(x, 7) == x >> 7;
    } else {
      assert Shr64(x, 6) == x >> 6;
    }
  }

  lemma ShiftedBits64(x: bv64, i: bv7)
    requires i < 64
    ensures Bit64(x >> 7, i) == (i + 7 < 64 && Bit64(x, i + 7))
    ensures Bit64(x >> 6, i) == (i + 6 < 64 && Bit64(x, i + 6))
  {
  }

  // The operators by their names.
  lemma AndIs64(x: bv64, y: bv64)
    ensures And64(x, y) == x & y
  {
  }

  lemma NotIs64(x: bv64)
    ensures Not64(x) == !x
  {
  }

  lemma XorIs64(x: bv64, y: bv64)
    ensures Xor64(x, y) == x ^ y
  {
  }

  lemma ShrIs64(x: bv64, n: bv7)
    requires n <= 64
    ensures Shr64(x, n) == x >> n
  {
  }

  lemma ThreeXor64(a: bv64, b: bv64, c: bv64)
    ensures a ^ b ^ c == Xor64(Xor64(a, b), c)
  {
    hide Xor64;
    assert Xor64(a ^ b, c) == a ^ b ^ c by { XorIs64(a ^ b, c); }
    XorIs64(a, b);
  }

  lemma TwoAnds64(x: bv64, y: bv64, z: bv64)
    ensures (x & y) ^ (!x & z) == Xor64(And64(x, y), And64(Not64(x), z))
  {
    hide And64, Xor64, Not64;
    XorIs64(x & y, !x & z);
    AndIs64(x, y);
    NotIs64(x);
    AndIs64(!x, z);
  }

  lemma ThreeAnds64(x: bv64, y: bv64, z: bv64)
    ensures (x & y) ^ (x & z) ^ (y & z) == Xor64(Xor64(And64(x, y), And64(x, z)), And64(y, z))
  {
    hide And64, Xor64;
    ThreeXor64(x & y, x & z, y & z);
    AndIs64(x, y);
    AndIs64(x, z);
    AndIs64(y, z);
  }
}
