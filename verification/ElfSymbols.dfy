/** Symbol lookup of xh_elf.c through the SysV and the GNU hash tables, against a scan of the symbol table. */
module ElfSymbols {
  import opened CString
  import opened Prelude

  // ---------- Hash functions on 32-bit words ----------

  const WORD32 := 0x1_0000_0000
  const TOP := 0x1000_0000   // the top four bits count multiples of this

  /** The bitwise exclusive or of two natural numbers. */
  function Xor(a: nat, b: nat): nat
    decreases a + b
  {
    if a == 0 && b == 0 then 0
    else (if a % 2 != b % 2 then 1 else 0) + 2 * Xor(a / 2, b / 2)
  }

  lemma {:induction false} XorBelow(a: nat, b: nat, k: nat)
    requires a < Pow2(k) && b < Pow2(k)
    ensures Xor(a, b) < Pow2(k)
  {
    if k > 0 {
      XorBelow(a / 2, b / 2, k - 1);
    }
  }

  lemma {:induction false} XorSame(a: nat)
    ensures Xor(a, a) == 0
  {
    if a > 0 {
      XorSame(a / 2);
    }
  }

  /** Exclusive or with the bits from k up clears them. */
  lemma {:induction false} XorClears(a: nat, b: nat, k: nat)
    requires a < Pow2(k)
    ensures Xor(a + b * Pow2(k), b * Pow2(k)) == a
    decreases k, a
  {
    if k == 0 {
      XorSame(b);
    } else {
      var m := b * Pow2(k - 1);
      assert b * Pow2(k) == 2 * m;
      XorClears(a / 2, b, k - 1);
      XorHalves(a, m);
    }
  }

  lemma XorHalves(a: nat, m: nat)
    requires Xor(a / 2 + m, m) == a / 2
    ensures Xor(a + 2 * m, 2 * m) == a
  {
    hide Xor;
    XorUnfold(a + 2 * m, 2 * m);
    Halves(a, m);
    Halves(0, m);
  }

  lemma XorUnfold(a: nat, b: nat)
    ensures Xor(a, b) == (if a % 2 != b % 2 then 1 else 0) + 2 * Xor(a / 2, b / 2)
  {
  }

  lemma Halves(a: nat, m: nat)
    ensures (a + 2 * m) / 2 == a / 2 + m && (a + 2 * m) % 2 == a % 2
  {
  }

  lemma PowTop()
    ensures Pow2(28) == TOP
  {
    assert Pow2(7) == 128;
    assert Pow2(14) == 128 * 128;
    assert Pow2(21) == 128 * 128 * 128;
  }

  /** One step of the hash of the System V gABI, chapter 5: shifted by four, the top four bits folded in and dropped. */
  function SysvStep(h: nat, c: NonZeroByte): nat
  {
    var h1 := (h * 16 + c as nat) % WORD32;
    Xor(h1 % TOP, h1 / TOP * 16)
  }

  function SysvHash(name: CStr): nat
  {
    if name == [] then 0 else SysvStep(SysvHash(name[..|name| - 1]), name[|name| - 1])
  }

  function GnuStep(h: nat, c: NonZeroByte): nat
  {
    (h * 33 + c as nat) % WORD32
  }

  /** The polynomial in 33 whose coefficients are 5381 and the bytes of the name, modulo 2^32. */
  function GnuHash(name: CStr): (h: nat)
    ensures h < WORD32
  {
    if name == [] then 5381 else GnuStep(GnuHash(name[..|name| - 1]), name[|name| - 1])
  }

  /** The hash has no more than 28 bits. */
  lemma SysvTopBits(name: CStr)
    ensures SysvHash(name) < TOP
  {
    if name != [] {
      var h1 := (SysvHash(name[..|name| - 1]) * 16 + name[|name| - 1] as nat) % WORD32;
      PowTop();
      XorBelow(h1 % TOP, h1 / TOP * 16, 28);
    }
  }

  /** The step as the program takes it: the top bits are cleared by exclusive or before they are folded in. */
  ghost function FoldStep(h: nat, c: NonZeroByte): nat
  {
    var h1 := (h * 16 % WORD32 + c as nat) % WORD32;
    var g := h1 / TOP * TOP;
    var h2 := Xor(h1, g);
    Xor(h2, g / 0x100_0000)
  }

  lemma FoldIsSysv(h: nat, c: NonZeroByte)
    ensures FoldStep(h, c) == SysvStep(h, c)
  {
    hide Xor;
    var h1 := (h * 16 % WORD32 + c as nat) % WORD32;
    AddWord(c as nat, h * 16);
    PowTop();
    XorClears(h1 % TOP, h1 / TOP, 28);
  }

  ghost function ShiftStep(h: nat, c: NonZeroByte): nat
  {
    (h + (h * 32 % WORD32 + c as nat) % WORD32) % WORD32
  }

  lemma ShiftIsGnu(h: nat, c: NonZeroByte)
    ensures ShiftStep(h, c) == GnuStep(h, c)
  {
    AddWord(c as nat, h * 32);
    AddWord(h, h * 32 + c as nat);
  }

  lemma AddWord(a: int, x: int)
    ensures (a + x % WORD32) % WORD32 == (a + x) % WORD32
  {
  }

  /** xh_elf_hash, on 32-bit words. */
  method ElfHash(name: CStr) returns (r: nat)
    ensures r == SysvHash(name)
  {
    hide SysvStep, Xor;
    var h: nat := 0;
    var i := 0;
    while i < |name|
      invariant 0 <= i <= |name| && h == SysvHash(name[..i])
    {
      assert name[..i + 1][..i] == name[..i];
      FoldIsSysv(h, name[i]);
      ghost var was := h;
      h := (h * 16 % 0x1_0000_0000 + name[i] as nat) % 0x1_0000_0000;
      var g := h / 0x1000_0000 * 0x1000_0000;
      h := Xor(h, g);
      h := Xor(h, g / 0x100_0000);
      assert h == FoldStep(was, name[i]);
      i := i + 1;
    }
    assert name[..i] == name;
    r := h;
  }

  /** xh_elf_gnu_hash, on 32-bit words. */
  method ElfGnuHash(name: CStr) returns (r: nat)
    ensures r == GnuHash(name)
  {
    hide GnuStep;
    var h: nat := 5381;
    var i := 0;
    while i < |name|
      invariant 0 <= i <= |name| && h == GnuHash(name[..i])
    {
      assert name[..i + 1][..i] == name[..i];
      ShiftIsGnu(h, name[i]);
      ghost var was := h;
      h := (h + (h * 32 % 0x1_0000_0000 + name[i] as nat) % 0x1_0000_0000) % 0x1_0000_0000;
      assert h == ShiftStep(was, name[i]);
      i := i + 1;
    }
    assert name[..i] == name;
    r := h;
  }

  lemma GnuMore(name: CStr, c: NonZeroByte)
    ensures GnuHash([]) == 5381
    ensures GnuHash(name + [c]) == (GnuHash(name) * 33 + c as nat) % 0x1_0000_0000
  {
    assert (name + [c])[..|name|] == name;
  }

  lemma XorDouble(x: nat, y: nat, e: nat)
    requires e < 2
    ensures Xor(2 * x + e, 2 * y) == 2 * Xor(x, y) + e
  {
    hide Xor;
    XorUnfold(2 * x + e, 2 * y);
  }

  lemma XorShift4(x: nat, y: nat, d: nat)
    requires d < 16
    ensures Xor(16 * x + d, 16 * y) == 16 * Xor(x, y) + d
  {
    hide Xor;
    XorDouble(8 * x + d / 2, 8 * y, d % 2);
    XorDouble(4 * x + d / 4, 4 * y, d / 2 % 2);
    XorDouble(2 * x + d / 8, 2 * y, d / 4 % 2);
    XorDouble(x, y, d / 8);
  }

  lemma {:induction false} XorZero(a: nat)
    ensures Xor(a, 0) == a
  {
    if a > 0 {
      XorZero(a / 2);
    }
  }

  lemma {:induction false} XorLow(a: nat, b: nat, t: nat, k: nat)
    requires b < Pow2(k) && t < Pow2(k)
    ensures Xor(a * Pow2(k) + b, t) == a * Pow2(k) + Xor(b, t)
    decreases k
  {
    hide Xor;
    if k == 0 {
      XorZero(a);
      XorZero(0);
    } else {
      var m := a * Pow2(k - 1);
      assert a * Pow2(k) == 2 * m;
      XorLow(a, b / 2, t / 2, k - 1);
      XorUnfold(2 * m + b, t);
      XorUnfold(b, t);
      Halves(b, m);
      assert 2 * m + b == b + 2 * m;
    }
  }

  /**
   * A byte more shifts the hash by four bits; the four that leave its 28 bits are combined by exclusive or with the
   * second lowest four.
   */
  lemma SysvMore(name: CStr, c: NonZeroByte)
    ensures SysvHash([]) == 0
    ensures var x := (SysvHash(name) * 16 + c as nat) % 0x1_0000_0000;
            var low, top := x % 0x1000_0000, x / 0x1000_0000;
            SysvHash(name + [c]) == low / 256 * 256 + Xor(low / 16 % 16, top) * 16 + low % 16
  {
    hide Xor;
    assert (name + [c])[..|name|] == name;
    var x := (SysvHash(name) * 16 + c as nat) % 0x1_0000_0000;
    var low, top := x % 0x1000_0000, x / 0x1000_0000;
    XorShift4(low / 16, top, low % 16);
    assert Pow2(4) == 16;
    XorLow(low / 256, low / 16 % 16, top, 4);
    LowParts(low);
  }

  lemma LowParts(low: nat)
    ensures low == 16 * (low / 16) + low % 16 && low / 16 == low / 256 * 16 + low / 16 % 16
  {
  }

  lemma XorBit(a: nat, b: nat)
    ensures Xor(a, b) % 2 == (if a % 2 != b % 2 then 1 else 0) && Xor(a, b) / 2 == Xor(a / 2, b / 2)
  {
    hide Xor;
    XorUnfold(a, b);
  }

  lemma Quarters(a: nat)
    ensures a / 2 / 2 == a / 4 && a / 4 / 2 == a / 8
  {
  }

  /** The bits of an exclusive or, the lowest four of which are given. */
  lemma XorBits(a: nat, b: nat)
    ensures var x := Xor(a, b);
            && x % 2 == (if a % 2 != b % 2 then 1 else 0)
            && x / 2 % 2 == (if a / 2 % 2 != b / 2 % 2 then 1 else 0)
            && x / 4 % 2 == (if a / 4 % 2 != b / 4 % 2 then 1 else 0)
            && x / 8 == Xor(a / 8, b / 8) && Xor(x / 8, 0) == x / 8
  {
    hide Xor;
    var x := Xor(a, b);
    XorBit(a, b);
    XorBit(a / 2, b / 2);
    XorBit(a / 4, b / 4);
    Quarters(a);
    Quarters(b);
    Quarters(x);
    XorZero(x / 8);
  }

  lemma NothingFolded(low: nat)
    requires low < 0x1000_0000
    ensures low % 0x1_0000_0000 % 0x1000_0000 == low && low % 0x1_0000_0000 / 0x1000_0000 == 0
    ensures low / 256 * 256 + Xor(low / 16 % 16, 0) * 16 + low % 16 == low
  {
    hide Xor;
    XorZero(low / 16 % 16);
    LowParts(low);
  }

  lemma OneMore(name: CStr, k: nat)
    requires k < |name|
    ensures GnuHash(name[..k + 1]) == (GnuHash(name[..k]) * 33 + name[k] as nat) % 0x1_0000_0000
    ensures SysvHash(name[..k]) * 16 + name[k] as nat < 0x1000_0000 ==>
              SysvHash(name[..k + 1]) == SysvHash(name[..k]) * 16 + name[k] as nat
  {
    hide Xor, SysvHash, GnuHash;
    var low := SysvHash(name[..k]) * 16 + name[k] as nat;
    assert name[..k] + [name[k]] == name[..k + 1];
    GnuMore(name[..k], name[k]);
    SysvMore(name[..k], name[k]);
    if low < 0x1000_0000 {
      NothingFolded(low);
    }
  }

  lemma PrintfHashes(name: CStr)
    requires |name| == 7 && name[..6] == [112, 114, 105, 110, 116, 102]
    ensures SysvHash(name[..6]) == 125371814 && GnuHash(name[..6]) == 0x156b_2bb8
  {
    hide GnuHash, SysvHash, Xor;
    var first := name[..6];
    assert name[0] == first[0] && name[1] == first[1] && name[2] == first[2];
    assert name[3] == first[3] && name[4] == first[4] && name[5] == first[5];
    assert name[..0] == [];
    GnuMore([], 112);
    SysvMore([], 112);
    OneMore(name, 0);
    OneMore(name, 1);
    OneMore(name, 2);
    assert GnuHash(name[..3]) == 193502832 && SysvHash(name[..3]) == 30601;
    OneMore(name, 3);
    OneMore(name, 4);
    OneMore(name, 5);
  }

  lemma XorElevenSeven()
    ensures Xor(11, 7) == 12
  {
    hide Xor;
    XorBits(11, 7);
    XorUnfold(1, 0);
    XorUnfold(0, 0);
  }

  lemma FoldExample()
    ensures var x := (125371814 * 16 + 95) % 0x1_0000_0000;
            var low, top := x % 0x1000_0000, x / 0x1000_0000;
            low / 256 * 256 + Xor(low / 16 % 16, top) * 16 + low % 16 == 0x0790_5acf
  {
    hide Xor;
    XorElevenSeven();
  }

  /** Hashes of "printf_"; four bits leave the first of them. */
  lemma HashExamples(name: CStr)
    requires name == [112, 114, 105, 110, 116, 102, 95]
    ensures SysvHash(name) == 0x0790_5acf && GnuHash(name) == 0xc2d0_a317
  {
    hide GnuHash, SysvHash, Xor;
    var front := name[..6];
    assert front == [112, 114, 105, 110, 116, 102];
    PrintfHashes(name);
    assert front + [95] == name;
    GnuMore(front, 95);
    SysvMore(front, 95);
    FoldExample();
  }

  // ---------- What a lookup must find ----------

  /** r is an index from lo on whose name is symbol; None exactly when a scan from lo on meets no such name. */
  ghost predicate Finds(names: seq<CStr>, lo: nat, symbol: CStr, r: Option<nat>)
  {
    match r
    case Some(i) => lo <= i < |names| && names[i] == symbol
    case None => forall i | lo <= i < |names| :: names[i] != symbol
  }

  // ---------- SysV hash table ----------

  datatype SysvTable = SysvTable(bucket: seq<nat>, chain: seq<nat>)

  /** Index i is met on the chain that starts at `from`. */
  ghost predicate OnChain(t: SysvTable, rank: seq<nat>, from: nat, i: nat)
    requires ChainsOk(t, rank) && from < |t.chain|
    decreases rank[from]
  {
    from != 0 && (from == i || (t.chain[from] != 0 && OnChain(t, rank, t.chain[from], i)))
  }

  /** Chains stay in the table and run downhill in rank: they end. */
  ghost predicate ChainsOk(t: SysvTable, rank: seq<nat>)
  {
    && |rank| == |t.chain| && |t.bucket| > 0 && |t.chain| > 0
    && (forall b | 0 <= b < |t.bucket| :: t.bucket[b] < |t.chain|)
    && (forall i | 0 < i < |t.chain| :: t.chain[i] < |t.chain| && (t.chain[i] != 0 ==> rank[t.chain[i]] < rank[i]))
  }

  /** Every symbol but the first, which is the undefined one, is on the chain of its bucket. */
  ghost predicate SysvOk(t: SysvTable, rank: seq<nat>, names: seq<CStr>)
  {
    && ChainsOk(t, rank) && |names| == |t.chain|
    && forall i | 0 < i < |names| :: OnChain(t, rank, t.bucket[SysvHash(names[i]) % |t.bucket|], i)
  }

  /** xh_elf_hash_lookup */
  method HashLookup(t: SysvTable, names: seq<CStr>, symbol: CStr, ghost rank: seq<nat>) returns (r: Option<nat>)
    requires SysvOk(t, rank, names)
    ensures Finds(names, 1, symbol, r)
  {
    var hash := ElfHash(symbol);
    var i: nat := t.bucket[hash % |t.bucket|];
    while i != 0
      invariant i < |t.chain|
      invariant forall j | 0 < j < |names| && names[j] == symbol :: OnChain(t, rank, i, j)
      decreases if i == 0 then 0 else rank[i] + 1
    {
      if symbol == names[i] {
        return Some(i);
      }
      i := t.chain[i];
    }
    r := None;
  }

  // ---------- GNU hash table ----------

  const BITS := 64   // bits of a bloom filter word

  datatype GnuTable = GnuTable(bloom: seq<nat>, bloomShift: nat, bucket: seq<nat>, chain: seq<nat>, symOffset: nat)

  ghost predicate Bit(word: nat, k: nat)
  {
    word / Pow2(k) % 2 == 1
  }

  /** Both bits of a hash are set in its word of the bloom filter. */
  ghost predicate BloomHit(t: GnuTable, hash: nat)
    requires |t.bloom| > 0
  {
    var word := t.bloom[hash / BITS % |t.bloom|];
    Bit(word, hash % BITS) && Bit(word, hash / Pow2(t.bloomShift) % BITS)
  }

  /** Both hashes agree but for their lowest bits. */
  ghost predicate SameHash(a: nat, b: nat)
  {
    a / 2 == b / 2
  }

  /** The chain entry of symbol i ends its bucket. */
  ghost predicate Ends(t: GnuTable, i: nat)
    requires t.symOffset <= i < t.symOffset + |t.chain|
  {
    t.chain[i - t.symOffset] % 2 == 1
  }

  /**
   * The table as a linker builds it: symbols from symOffset on are grouped by bucket, each group ended by a set low
   * bit.
   */
  ghost predicate GnuOk(t: GnuTable, names: seq<CStr>)
  {
    && |t.bloom| > 0 && |t.bucket| > 0 && t.symOffset <= |names| && |t.chain| == |names| - t.symOffset
    && (forall b | 0 <= b < |t.bucket| :: t.bucket[b] < |names| || t.bucket[b] < t.symOffset)
    && (|t.chain| > 0 ==> Ends(t, |names| - 1))
    && forall i | t.symOffset <= i < |names| :: GnuEntryOk(t, names, i)
  }

  ghost predicate GnuEntryOk(t: GnuTable, names: seq<CStr>, i: nat)
    requires |t.bloom| > 0 && |t.bucket| > 0 && t.symOffset <= i < |names| && |t.chain| == |names| - t.symOffset
  {
    var hash := GnuHash(names[i]);
    var first := t.bucket[hash % |t.bucket|];
    && SameHash(t.chain[i - t.symOffset], hash) && BloomHit(t, hash)
    && t.symOffset <= first <= i
    && forall j | first <= j < i :: !Ends(t, j)
  }

  /** No chain entry from i up to j ends the bucket. */
  ghost predicate Ahead(t: GnuTable, i: nat, j: nat)
    requires t.symOffset <= i < t.symOffset + |t.chain| && t.symOffset <= j < t.symOffset + |t.chain|
  {
    i <= j && forall k | i <= k < j :: !Ends(t, k)
  }

  /** Symbol j passes every test made on its hash, and is ahead of the start of its bucket. */
  ghost predicate Awaits(t: GnuTable, hash: nat, j: nat)
    requires |t.bloom| > 0 && |t.bucket| > 0 && t.symOffset <= j < t.symOffset + |t.chain|
  {
    var first := t.bucket[hash % |t.bucket|];
    && BloomHit(t, hash) && SameHash(t.chain[j - t.symOffset], hash)
    && t.symOffset <= first < t.symOffset + |t.chain| && Ahead(t, first, j)
  }

  /** xh_elf_gnu_hash_lookup_def */
  method GnuLookupDef(t: GnuTable, names: seq<CStr>, symbol: CStr) returns (r: Option<nat>)
    requires GnuOk(t, names)
    ensures Finds(names, t.symOffset, symbol, r)
  {
    var hash := ElfGnuHash(symbol);
    forall j | t.symOffset <= j < |names| && names[j] == symbol
      ensures Awaits(t, hash, j)
    {
      assert GnuEntryOk(t, names, j);
    }
    var word := t.bloom[hash / 64 % |t.bloom|];
    if word / Pow2(hash % 64) % 2 == 0 || word / Pow2(hash / Pow2(t.bloomShift) % 64) % 2 == 0 {
      assert !BloomHit(t, hash);
      return None;
    }
    var i: nat := t.bucket[hash % |t.bucket|];
    if i < t.symOffset {
      return None;
    }
    while true
      invariant t.symOffset <= i < |names|
      invariant forall j | t.symOffset <= j < |names| && names[j] == symbol :: Ahead(t, i, j)
      decreases |names| - i
    {
      var symhash := t.chain[i - t.symOffset];
      if hash / 2 == symhash / 2 && symbol == names[i] {
        return Some(i);
      }
      if symhash % 2 == 1 {
        assert Ends(t, i);
        break;
      }
      i := i + 1;
    }
    r := None;
  }

  /** xh_elf_gnu_hash_lookup_undef */
  method GnuLookupUndef(symOffset: nat, names: seq<CStr>, symbol: CStr) returns (r: Option<nat>)
    requires symOffset <= |names|
    ensures Finds(names[..symOffset], 0, symbol, r)
  {
    var i := 0;
    while i < symOffset
      invariant 0 <= i <= symOffset && forall j | 0 <= j < i :: names[j] != symbol
    {
      if names[i] == symbol {
        return Some(i);
      }
      i := i + 1;
    }
    r := None;
  }

  /** xh_elf_gnu_hash_lookup */
  method GnuLookup(t: GnuTable, names: seq<CStr>, symbol: CStr) returns (r: Option<nat>)
    requires GnuOk(t, names)
    ensures Finds(names, 0, symbol, r)
    ensures r.Some? && r.value < t.symOffset ==> forall i | t.symOffset <= i < |names| :: names[i] != symbol
  {
    r := GnuLookupDef(t, names, symbol);
    if r == None {
      r := GnuLookupUndef(t.symOffset, names, symbol);
      if r == None {
        forall i | 0 <= i < |names|
          ensures names[i] != symbol
        {
          if i < t.symOffset { assert names[..t.symOffset][i] == names[i]; }
        }
      }
    }
  }
}
