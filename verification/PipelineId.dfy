/** `DatabaseConfig::pipeline_id`: the 64-bit FNV-1a hash that names replication slots. */
module PipelineId {
  import opened Powers
  import opened Utf8

  const MODULUS: int := 0x1_0000_0000_0000_0000
  const FNV_OFFSET: u64 := 14695981039346656037
  const FNV_PRIME: u64 := 1099511628211

  /** The inverse of the prime modulo 2^64. */
  const PRIME_INVERSE: u64 := 14886173955864302971

  type u64 = x: int | 0 <= x < 0x1_0000_0000_0000_0000

  /** Bitwise exclusive or. */
  function Xor(x: nat, y: nat): nat
  {
    if x == 0 && y == 0 then 0 else (x % 2 + y % 2) % 2 + 2 * Xor(x / 2, y / 2)
  }

  /** Exclusive or of a word and a byte changes the low byte only, so it stays a word. */
  lemma {:induction false} XorBound(x: nat, y: nat, n: nat)
    requires x < Pow2(n) && y < Pow2(n)
    ensures Xor(x, y) < Pow2(n)
    decreases n
  {
    if n > 0 && !(x == 0 && y == 0) {
      XorBound(x / 2, y / 2, n - 1);
    }
  }

  lemma Pow2Word()
    ensures Pow2(64) == MODULUS
  {
    assert Pow2(4) == 16;
    Pow2Add(4, 4);
    Pow2Add(8, 8);
    Pow2Add(16, 16);
    Pow2Add(32, 32);
  }

  lemma Doubled(a: nat, b: nat)
    ensures 2 * (a * b) == a * (2 * b)
  {
  }

  lemma {:induction false} Pow2Add(m: nat, n: nat)
    ensures Pow2(m + n) == Pow2(m) * Pow2(n)
  {
    if n > 0 {
      Pow2Add(m, n - 1);
      Doubled(Pow2(m), Pow2(n - 1));
    }
  }

  lemma {:induction false} XorCommutes(x: nat, y: nat)
    ensures Xor(x, y) == Xor(y, x)
    decreases x + y
  {
    if !(x == 0 && y == 0) {
      XorCommutes(x / 2, y / 2);
    }
  }

  lemma {:induction false} XorInvolution(x: nat, y: nat)
    ensures Xor(Xor(x, y), y) == x
    decreases x + y
  {
    if !(x == 0 && y == 0) {
      hide Xor;
      var z := Xor(x, y);
      HalfXor(x, y);
      HalfXor(z, y);
      XorInvolution(x / 2, y / 2);
      HalvesAgree(Xor(z, y), x, y);
    }
  }

  lemma HalfXor(x: nat, y: nat)
    ensures Xor(x, y) / 2 == Xor(x / 2, y / 2) && Xor(x, y) % 2 == (x % 2 + y % 2) % 2
  {
  }

  lemma HalvesAgree(w: nat, x: nat, y: nat)
    requires w / 2 == x / 2 && w % 2 == ((x % 2 + y % 2) % 2 + y % 2) % 2
    ensures w == x
  {
  }

  /** One round: exclusive or with the byte, then a wrapping product with the prime. */
  function Step(h: u64, b: byte): u64 { Wrap(Xor(h, b) * FNV_PRIME) }

  function Wrap(n: int): u64 { n % MODULUS }

  function Unstep(h: u64, b: byte): nat { Xor(Wrap(h * PRIME_INVERSE), b) }

  function Fold(h: u64, s: bytes): u64
    decreases |s|
  {
    if s == [] then h else Fold(Step(h, s[0]), s[1..])
  }

  function DatabaseId(host: bytes, dbname: bytes): bytes { host + [0x2F] + dbname }

  method Compute(host: bytes, dbname: bytes) returns (hash: u64)
    ensures hash == Fold(FNV_OFFSET, DatabaseId(host, dbname))
  {
    var id := host + [0x2F] + dbname;
    hash := FNV_OFFSET;
    for i := 0 to |id|
      invariant Fold(hash, id[i..]) == Fold(FNV_OFFSET, id)
    {
      assert id[i..][1..] == id[i + 1..];
      WordXor(hash, id[i]);
      var mixed: u64 := Xor(hash, id[i]);
      hash := mixed * FNV_PRIME % 0x1_0000_0000_0000_0000;
    }
  }

  lemma WordXor(h: u64, b: byte)
    ensures Xor(h, b) < MODULUS
  {
    Pow2Word();
    XorBound(h, b, 64);
  }

  /** The prime is invertible modulo 2^64. */
  lemma ProductInverse(u: u64)
    ensures Wrap(Wrap(u * FNV_PRIME) * PRIME_INVERSE) == u
    ensures Wrap(Wrap(u * PRIME_INVERSE) * FNV_PRIME) == u
  {
    Cancel(u, FNV_PRIME, PRIME_INVERSE);
    Cancel(u, PRIME_INVERSE, FNV_PRIME);
  }

  lemma Cancel(u: u64, p: int, i: int)
    requires p * i == 1 + MODULUS * (FNV_PRIME * PRIME_INVERSE / MODULUS)
    ensures Wrap(Wrap(u * p) * i) == u
  {
    var k := FNV_PRIME * PRIME_INVERSE / MODULUS;
    var q := u * p / MODULUS;
    calc {
      Wrap(u * p) * i;
      (u * p - MODULUS * q) * i;
      u * (p * i) - MODULUS * q * i;
      u * (1 + MODULUS * k) - MODULUS * q * i;
      u + MODULUS * (u * k - q * i);
    }
    Multiple(u, u * k - q * i);
  }

  lemma Multiple(u: u64, c: int)
    ensures Wrap(u + MODULUS * c) == u
  {
  }

  /** Each round is a bijection of the hash: `Unstep` undoes it from both sides. */
  lemma StepBijective(h: u64, b: byte)
    ensures Unstep(Step(h, b), b) == h
    ensures Unstep(h, b) < MODULUS && Step(Unstep(h, b), b) == h
  {
    WordXor(h, b);
    ProductInverse(Xor(h, b));
    XorInvolution(h, b);
    var w := Wrap(h * PRIME_INVERSE);
    WordXor(w, b);
    XorInvolution(w, b);
    ProductInverse(h);
  }

  /** Each round is injective in the byte. */
  lemma StepInjective(h: u64, b: byte, c: byte)
    requires Step(h, b) == Step(h, c)
    ensures b == c
  {
    hide Xor, Wrap;
    WordXor(h, b);
    WordXor(h, c);
    ProductInverse(Xor(h, b));
    ProductInverse(Xor(h, c));
    XorCommutes(h, b);
    XorCommutes(h, c);
    XorInvolution(b, h);
    XorInvolution(c, h);
  }

  /** Different hashes stay different under the same suffix. */
  lemma {:induction false} FoldInjective(g: u64, h: u64, s: bytes)
    requires g != h
    ensures Fold(g, s) != Fold(h, s)
    decreases |s|
  {
    hide Step, Unstep;
    if s != [] {
      StepBijective(g, s[0]);
      StepBijective(h, s[0]);
      FoldInjective(Step(g, s[0]), Step(h, s[0]), s[1..]);
    }
  }

  /** Two ids of equal length that differ in exactly one byte never collide. */
  lemma {:induction false} OneByteNeverCollides(h: u64, s: bytes, k: nat, x: byte)
    requires k < |s| && x != s[k]
    ensures Fold(h, s) != Fold(h, s[k := x])
    decreases |s|
  {
    hide Step;
    var t := s[k := x];
    if k == 0 {
      if Step(h, s[0]) == Step(h, x) {
        StepInjective(h, s[0], x);
      }
      assert t[1..] == s[1..];
      FoldInjective(Step(h, s[0]), Step(h, x), s[1..]);
    } else {
      assert t[1..] == s[1..][k - 1 := x];
      OneByteNeverCollides(Step(h, s[0]), s[1..], k - 1, x);
    }
  }

  /** The longer host continues the shorter one with a slash and `x`, which the database name
      of the shorter one begins with, before another slash. */
  predicate Shifted(host: bytes, dbname: bytes, host': bytes, dbname': bytes, x: bytes)
  {
    host' == host + [0x2F] + x && dbname == x + [0x2F] + dbname'
  }

  /** Two databases, on whatever ports, have the same id if and only if host and name agree, or a
      slash of a host (which may be a socket directory) is read as the separator. */
  lemma DatabaseIdExact(host: bytes, dbname: bytes, host': bytes, dbname': bytes)
    ensures DatabaseId(host, dbname) == DatabaseId(host', dbname')
       <==> (host == host' && dbname == dbname')
            || exists x :: Shifted(host, dbname, host', dbname', x) || Shifted(host', dbname', host, dbname, x)
  {
    forall x | Shifted(host, dbname, host', dbname', x)
      ensures DatabaseId(host, dbname) == DatabaseId(host', dbname')
    {
      ShiftedSame(host, dbname, host', dbname', x);
    }
    forall x | Shifted(host', dbname', host, dbname, x)
      ensures DatabaseId(host, dbname) == DatabaseId(host', dbname')
    {
      ShiftedSame(host', dbname', host, dbname, x);
    }
    if DatabaseId(host, dbname) == DatabaseId(host', dbname') {
      if |host| <= |host'| {
        SameShifted(host, dbname, host', dbname');
      } else {
        SameShifted(host', dbname', host, dbname);
      }
    }
  }

  lemma ShiftedSame(host: bytes, dbname: bytes, host': bytes, dbname': bytes, x: bytes)
    requires Shifted(host, dbname, host', dbname', x)
    ensures DatabaseId(host, dbname) == DatabaseId(host', dbname')
  {
    assert host + [0x2F] + (x + [0x2F] + dbname') == (host + [0x2F] + x) + [0x2F] + dbname';
  }

  lemma SameShifted(host: bytes, dbname: bytes, host': bytes, dbname': bytes)
    requires DatabaseId(host, dbname) == DatabaseId(host', dbname') && |host| <= |host'|
    ensures (host == host' && dbname == dbname') || exists x :: Shifted(host, dbname, host', dbname', x)
  {
    var id, m, n := DatabaseId(host, dbname), |host|, |host'|;
    assert host == id[..m] && dbname == id[m + 1..];
    assert host' == id[..n] && dbname' == id[n + 1..];
    if m < n {
      assert id[..n] == id[..m] + [id[m]] + id[m + 1..n];
      assert id[m + 1..] == id[m + 1..n] + [id[n]] + id[n + 1..];
      assert Shifted(host, dbname, host', dbname', id[m + 1..n]);
    }
  }

  /** In particular, hosts without a slash: the id determines host and database name. */
  lemma DatabaseIdInjective(host: bytes, dbname: bytes, host': bytes, dbname': bytes)
    requires 0x2F !in host && 0x2F !in host'
    requires DatabaseId(host, dbname) == DatabaseId(host', dbname')
    ensures host == host' && dbname == dbname'
  {
    DatabaseIdExact(host, dbname, host', dbname');
    assert forall x :: 0x2F in host + [0x2F] + x && 0x2F in host' + [0x2F] + x;
  }

  // ----- a published hash

  lemma {:induction false} XorZero(x: nat)
    ensures Xor(x, 0) == x
  {
    if x > 0 {
      XorZero(x / 2);
    }
  }

  /** A step on the way from the low bits. */
  lemma XorBit(x: nat, y: nat, high: nat)
    requires Xor(x / 2, y / 2) == high
    ensures Xor(x, y) == 2 * high + (x % 2 + y % 2) % 2
  {
    HalfXor(x, y);
  }

  /** The offset basis with its low byte, 0x25, changed by 0x61. */
  lemma OffsetXor()
    ensures Xor(FNV_OFFSET, 0x61) == FNV_OFFSET - 0x25 + 0x44
  {
    hide Xor;
    XorZero(FNV_OFFSET / 128);
    XorBit(FNV_OFFSET / 64, 0x61 / 64, FNV_OFFSET / 128);
    XorBit(FNV_OFFSET / 32, 0x61 / 32, Xor(FNV_OFFSET / 64, 0x61 / 64));
    XorBit(FNV_OFFSET / 16, 0x61 / 16, Xor(FNV_OFFSET / 32, 0x61 / 32));
    XorBit(FNV_OFFSET / 8, 0x61 / 8, Xor(FNV_OFFSET / 16, 0x61 / 16));
    XorBit(FNV_OFFSET / 4, 0x61 / 4, Xor(FNV_OFFSET / 8, 0x61 / 8));
    XorBit(FNV_OFFSET / 2, 0x61 / 2, Xor(FNV_OFFSET / 4, 0x61 / 4));
    XorBit(FNV_OFFSET, 0x61, Xor(FNV_OFFSET / 2, 0x61 / 2));
  }

  /** The FNV-1a hash of the one letter `a`, as published. */
  lemma PublishedHash()
    ensures Fold(FNV_OFFSET, [0x61]) == 0xAF63DC4C8601EC8C
  {
    OffsetXor();
    hide Xor;
    assert [0x61][1..] == [];
  }
}
