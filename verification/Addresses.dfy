/** Addresses as numbers: which bits a network fixes, without reference to how bits are taken out of bytes. */
module Addresses {
  import opened Bytes
  import opened Trie
  import opened BuilderModel

  /** The number a bit string spells, most significant bit first. */
  function Num(p: Bits): nat {
    if p == [] then 0 else 2 * Num(p[..|p| - 1]) + if p[|p| - 1] then 1 else 0
  }

  lemma NumSnoc(p: Bits, b: bool)
    ensures Num(p + [b]) == 2 * Num(p) + if b then 1 else 0
  {
    assert (p + [b])[..|p|] == p;
  }

  lemma {:induction false} NumBound(p: Bits)
    ensures Num(p) < Pow2(|p|)
  {
    if p != [] {
      NumBound(p[..|p| - 1]);
    }
  }

  lemma {:induction false} NumJoin(p: Bits, q: Bits)
    ensures Num(p + q) == Num(p) * Pow2(|q|) + Num(q)
  {
    if q == [] {
      assert p + q == p;
    } else {
      var init, last := q[..|q| - 1], q[|q| - 1];
      NumJoin(p, init);
      assert p + q == (p + init) + [last];
      NumSnoc(p + init, last);
      Twice(Num(p), Pow2(|init|));
    }
  }

  lemma Twice(a: nat, b: nat)
    ensures 2 * (a * b) == a * (2 * b)
  {
  }

  /** Bit strings of the same length are told apart by their numbers. */
  lemma {:induction false} NumInjective(p: Bits, q: Bits)
    requires |p| == |q| && Num(p) == Num(q)
    ensures p == q
  {
    if p != [] {
      NumInjective(p[..|p| - 1], q[..|q| - 1]);
      assert p == p[..|p| - 1] + [p[|p| - 1]] && q == q[..|q| - 1] + [q[|q| - 1]];
    }
  }

  lemma LeadingBits(p: Bits, q: Bits)
    ensures Num(p + q) / Pow2(|q|) == Num(p)
  {
    NumJoin(p, q);
    NumBound(q);
    QuotientOf(Num(p), Pow2(|q|), Num(q));
  }

  lemma QuotientOf(a: nat, m: nat, r: nat)
    requires r < m
    ensures (a * m + r) / m == a
  {
    var x: int := a * m + r;
    var d: int := x / m - a;
    assert d * m == r - x % m;
    SmallMultiple(d, m);
  }

  lemma SmallMultiple(d: int, m: int)
    requires -m < d * m < m
    ensures d == 0
  {
  }

  /** A bit string begins with another exactly if its leading bits spell the same number. */
  lemma PrefixByNumber(p: Bits, q: Bits)
    requires |p| <= |q|
    ensures p <= q <==> Num(p) == Num(q) / Pow2(|q| - |p|)
  {
    var head, tail := q[..|p|], q[|p|..];
    assert q == head + tail;
    LeadingBits(head, tail);
    if Num(p) == Num(head) {
      NumInjective(p, head);
    }
  }

  // ---------- the bits of bytes ----------

  lemma HalfQuotient(x: nat, m: nat)
    requires m in {1, 2, 4, 8, 16, 32, 64, 128}
    ensures x / m == 2 * (x / (2 * m)) + x / m % 2
  {
  }

  lemma SmallPowers()
    ensures Pow2(0) == 1 && Pow2(1) == 2 && Pow2(2) == 4 && Pow2(3) == 8 && Pow2(4) == 16
    ensures Pow2(5) == 32 && Pow2(6) == 64 && Pow2(7) == 128 && Pow2(8) == 256
  {
    assert Pow2(2) == 4 && Pow2(4) == 16 && Pow2(6) == 64;
  }

  lemma {:induction false} BitsOfByte(bits: seq<byte>, i: nat, k: nat)
    requires i < |bits| && k <= 8
    ensures Num(Path(bits, 8 * i, 8 * i + k)) == bits[i] as nat / Pow2(8 - k)
  {
    SmallPowers();
    if k == 0 {
      assert Path(bits, 8 * i, 8 * i) == [];
    } else {
      BitsOfByte(bits, i, k - 1);
      PathSnoc(bits, 8 * i, 8 * i + k - 1);
      NumSnoc(Path(bits, 8 * i, 8 * i + k - 1), BitAt(bits, 8 * i + k - 1));
      HalfQuotient(bits[i], Pow2(8 - k));
      assert (8 * i + k - 1) / 8 == i && (8 * i + k - 1) % 8 == k - 1;
    }
  }

  lemma {:induction false} BytesSpell(bits: seq<byte>, n: nat)
    requires n <= |bits|
    ensures Num(Path(bits, 0, 8 * n)) == BigEndian(bits[..n])
  {
    if n > 0 {
      BytesSpell(bits, n - 1);
      PathSplit(bits, 0, 8 * (n - 1), 8 * n);
      BitsOfByte(bits, n - 1, 8);
      NumJoin(Path(bits, 0, 8 * (n - 1)), Path(bits, 8 * (n - 1), 8 * n));
      SmallPowers();
      assert bits[..n][..n - 1] == bits[..n - 1];
    }
  }

  /** The whole path of an address spells the address as a big-endian number. */
  lemma PathSpells(bits: seq<byte>)
    ensures Num(Path(bits, 0, 8 * |bits|)) == BigEndian(bits)
  {
    BytesSpell(bits, |bits|);
    assert bits[..|bits|] == bits;
  }

  /** A prefix of `len` bits spells the leading bits of the address. */
  lemma PrefixSpells(bits: seq<byte>, len: nat)
    requires len <= 8 * |bits|
    ensures Num(Path(bits, 0, len)) == BigEndian(bits) / Pow2(8 * |bits| - len)
  {
    PathSplit(bits, 0, len, 8 * |bits|);
    LeadingBits(Path(bits, 0, len), Path(bits, len, 8 * |bits|));
    PathSpells(bits);
  }

  /** `addr` lies in the network of `net` with prefix length `len`: the leading bits agree. */
  predicate InNetwork(net: seq<byte>, len: nat, addr: seq<byte>) {
    |net| == |addr| == 16 && len <= 128 && BigEndian(net) / Pow2(128 - len) == BigEndian(addr) / Pow2(128 - len)
  }

  /** The path of a network is a prefix of an address exactly if the address lies in the network. */
  lemma CoversIffInNetwork(net: seq<byte>, len: nat, addr: seq<byte>, p: Bits)
    requires |net| == |addr| == 16 && len <= 128 && |p| == 128 && Num(p) == BigEndian(addr)
    ensures Path(net, 0, len) <= p <==> BigEndian(net) / Pow2(128 - len) == BigEndian(addr) / Pow2(128 - len)
  {
    PrefixSpells(net, len);
    PrefixByNumber(Path(net, 0, len), p);
  }
}
