/** Physical memory as bytes, with little-endian words, and the packed headers that
  * kernel/source/alloc/physical.cpp:17-32 keeps in it: an 8-byte link and a 4-byte size. */
module Memory {
  import opened Bits

  const HEADER := 12

  /** The n-byte word at address a. */
  function Load(M: seq<Byte>, a: nat, n: nat): nat
    requires a + n <= |M|
    decreases n
  {
    if n == 0 then 0 else M[a] + 256 * Load(M, a + 1, n - 1)
  }

  function Store(M: seq<Byte>, a: nat, n: nat, v: nat): (M': seq<Byte>)
    requires a + n <= |M|
    ensures |M'| == |M|
    decreases n
  {
    if n == 0 then M else Store(M[a := v % 256], a + 1, n - 1, v / 256)
  }

  function Pow256(n: nat): (r: nat)
    ensures r >= 1
  {
    if n == 0 then 1 else 256 * Pow256(n - 1)
  }

  lemma Words()
    ensures Pow256(2) == 0x1_0000 && Pow256(4) == 0x1_0000_0000 && Pow256(8) == 0x1_0000_0000_0000_0000
  {
    assert Pow256(1) == 256;
    assert Pow256(2) == 0x1_0000;
    assert Pow256(3) == 0x100_0000;
    assert Pow256(4) == 0x1_0000_0000;
    assert Pow256(5) == 0x100_0000_0000;
    assert Pow256(6) == 0x1_0000_0000_0000;
    assert Pow256(7) == 0x100_0000_0000_0000;
  }

  lemma {:induction false} StoreFrame(M: seq<Byte>, a: nat, n: nat, v: nat, k: nat)
    requires a + n <= |M| && k < |M| && !(a <= k < a + n)
    ensures Store(M, a, n, v)[k] == M[k]
    decreases n
  {
    if n != 0 {
      StoreFrame(M[a := v % 256], a + 1, n - 1, v / 256, k);
    }
  }

  lemma {:induction false} LoadFrame(M: seq<Byte>, M': seq<Byte>, a: nat, n: nat)
    requires a + n <= |M| == |M'| && forall k | a <= k < a + n :: M[k] == M'[k]
    ensures Load(M, a, n) == Load(M', a, n)
    decreases n
  {
    if n != 0 {
      LoadFrame(M, M', a + 1, n - 1);
    }
  }

  /** A word that does not meet the stored one is unchanged. */
  lemma LoadStoreOther(M: seq<Byte>, a: nat, n: nat, v: nat, b: nat, m: nat)
    requires a + n <= |M| && b + m <= |M| && (b + m <= a || a + n <= b)
    ensures Load(Store(M, a, n, v), b, m) == Load(M, b, m)
  {
    forall k | b <= k < b + m ensures Store(M, a, n, v)[k] == M[k] {
      StoreFrame(M, a, n, v, k);
    }
    LoadFrame(Store(M, a, n, v), M, b, m);
  }

  /** A stored word is read back, truncated to its width. */
  lemma {:induction false} LoadStoreSame(M: seq<Byte>, a: nat, n: nat, v: nat)
    requires a + n <= |M|
    ensures v < Pow256(n) ==> Load(Store(M, a, n, v), a, n) == v
    decreases n
  {
    if n != 0 && v < Pow256(n) {
      var M1 := M[a := v % 256];
      LoadStoreSame(M1, a + 1, n - 1, v / 256);
      StoreFrame(M1, a + 1, n - 1, v / 256, a);
    }
  }

  lemma {:induction false} LoadBelow(M: seq<Byte>, a: nat, n: nat)
    requires a + n <= |M|
    ensures Load(M, a, n) < Pow256(n)
    decreases n
  {
    if n != 0 {
      LoadBelow(M, a + 1, n - 1);
    }
  }

  lemma {:induction false} LoadZeros(M: seq<Byte>, a: nat, n: nat)
    requires a + n <= |M| && forall k | a <= k < a + n :: M[k] == 0
    ensures Load(M, a, n) == 0
    decreases n
  {
    if n > 0 {
      LoadZeros(M, a + 1, n - 1);
    }
  }

  /** A word is its low j bytes and the others. */
  lemma {:induction false} LoadSplit(M: seq<Byte>, a: nat, n: nat, j: nat)
    requires j <= n && a + n <= |M|
    ensures Load(M, a, n) == Load(M, a, j) + Pow256(j) * Load(M, a + j, n - j)
    decreases j
  {
    if j > 0 {
      LoadSplit(M, a + 1, n - 1, j - 1);
      assert a + 1 + (j - 1) == a + j && n - 1 - (j - 1) == n - j;
      ScaledSum(Load(M, a + 1, j - 1), Pow256(j - 1), Load(M, a + j, n - j));
    }
  }

  lemma ScaledSum(y: nat, x: nat, z: nat)
    ensures 256 * (y + x * z) == 256 * y + (256 * x) * z
  {
  }

  /** The low j bytes of a word are what is left modulo 256^j. */
  lemma LoadModulo(M: seq<Byte>, a: nat, n: nat, j: nat)
    requires j <= n && a + n <= |M|
    ensures Load(M, a, n) % Pow256(j) == Load(M, a, j)
  {
    hide Load, Pow256;
    LoadSplit(M, a, n, j);
    LoadBelow(M, a, j);
    var hi := Load(M, a + j, n - j);
    assert Pow256(j) * hi == hi * Pow256(j);
    ModIs(Load(M, a, n), hi, Pow256(j), Load(M, a, j));
  }

  /** The first part of a word of zero is zero. */
  lemma ZeroPrefix(M: seq<Byte>, a: nat, n: nat, j: nat)
    requires j <= n && a + n <= |M| && Load(M, a, n) == 0
    ensures Load(M, a, j) == 0
  {
    LoadModulo(M, a, n, j);
  }

  /** A word of zero consists of zeros. */
  lemma {:induction false} ZeroBytes(M: seq<Byte>, a: nat, n: nat, k: nat)
    requires a <= k < a + n <= |M| && Load(M, a, n) == 0
    ensures M[k] == 0
    decreases n
  {
    if a < k {
      ZeroBytes(M, a + 1, n - 1, k);
    }
  }

  lemma {:induction false} StoreZeros(M: seq<Byte>, a: nat, n: nat, k: nat)
    requires a <= k < a + n <= |M|
    ensures Store(M, a, n, 0)[k] == 0
    decreases n
  {
    if a < k {
      StoreZeros(M[a := 0], a + 1, n - 1, k);
    } else {
      StoreFrame(M[a := 0], a + 1, n - 1, 0, k);
    }
  }

  /** Storing the word that is there changes nothing. */
  lemma {:induction false} StoreSame(M: seq<Byte>, a: nat, n: nat)
    requires a + n <= |M|
    ensures Store(M, a, n, Load(M, a, n)) == M
    decreases n
  {
    if n > 0 {
      assert M[a := M[a]] == M;
      StoreSame(M, a + 1, n - 1);
    }
  }

  lemma BelowModulo(v: nat, m: nat)
    requires m > 0
    ensures v % m == v <==> v < m
  {
  }

  // ---------- headers ----------

  function Next(M: seq<Byte>, a: nat): nat
    requires a + HEADER <= |M|
  {
    Load(M, a, 8)
  }

  function Size(M: seq<Byte>, a: nat): nat
    requires a + HEADER <= |M|
  {
    Load(M, a + 8, 4)
  }

  function SetNext(M: seq<Byte>, a: nat, v: nat): (M': seq<Byte>)
    requires a + HEADER <= |M|
    ensures |M'| == |M|
  {
    Store(M, a, 8, v)
  }

  function SetSize(M: seq<Byte>, a: nat, v: nat): (M': seq<Byte>)
    requires a + HEADER <= |M|
    ensures |M'| == |M|
  {
    Store(M, a + 8, 4, v)
  }

  /** Writing one field of a header, seen from any header that is the same or apart. */
  lemma SetNextFields(M: seq<Byte>, a: nat, v: nat, b: nat)
    requires a + HEADER <= |M| && b + HEADER <= |M| && v < 0x1_0000_0000_0000_0000
    requires a == b || a + HEADER <= b || b + HEADER <= a
    ensures Next(SetNext(M, a, v), b) == if a == b then v else Next(M, b)
    ensures Size(SetNext(M, a, v), b) == Size(M, b)
  {
    hide Load, Store, Pow256;
    Words();
    if a == b {
      LoadStoreSame(M, a, 8, v);
    } else {
      LoadStoreOther(M, a, 8, v, b, 8);
    }
    LoadStoreOther(M, a, 8, v, b + 8, 4);
  }

  lemma SetSizeFields(M: seq<Byte>, a: nat, v: nat, b: nat)
    requires a + HEADER <= |M| && b + HEADER <= |M| && v < 0x1_0000_0000
    requires a == b || a + HEADER <= b || b + HEADER <= a
    ensures Size(SetSize(M, a, v), b) == if a == b then v else Size(M, b)
    ensures Next(SetSize(M, a, v), b) == Next(M, b)
  {
    hide Load, Store, Pow256;
    Words();
    if a == b {
      LoadStoreSame(M, a + 8, 4, v);
    } else {
      LoadStoreOther(M, a + 8, 4, v, b + 8, 4);
    }
    LoadStoreOther(M, a + 8, 4, v, b, 8);
  }
}
