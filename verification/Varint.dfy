/**
 The variable-length integers of the SPOE protocol (src/spoa/varint.h). `Encode` is defined on all
 natural numbers, where it is a bijection onto the complete byte chains; the 64-bit code is the
 part of it below 2^64.
 */
module Varint {
  import opened Bytes

  const LIMIT: nat := 0x1_0000_0000_0000_0000
  const MAX_ENCODED_SIZE: nat := 10

  /** The low bits of `m` under the continuation bit, and what is left to write after them. */
  function More(m: nat): byte {
    0x80 + m % 128
  }

  function Left(m: nat): nat
    requires m >= 128
  {
    (m - 128) / 128
  }

  function Tail(m: nat): seq<byte> {
    if m < 128 then [m] else [More(m)] + Tail(Left(m))
  }

  function Lead(n: nat): byte {
    0xF0 + n % 16
  }

  /** The encoding of `n`. */
  function Encode(n: nat): seq<byte> {
    if n < 240 then [n] else [Lead(n)] + Tail((n - 240) / 16)
  }

  /** The value of a chain of continuation bytes at the head of `s`, and its length. */
  function TailValue(s: seq<byte>): Option<(nat, nat)> {
    if s == [] then None
    else if s[0] < 128 then Some((s[0], 1))
    else match TailValue(s[1..])
      case None => None
      case Some((m, k)) => Some((s[0] + 128 * m, k + 1))
  }

  /** The number whose encoding begins `s`, of any size, and the length of that encoding. */
  function Value(s: seq<byte>): Option<(nat, nat)> {
    if s == [] then None
    else if s[0] < 240 then Some((s[0], 1))
    else match TailValue(s[1..])
      case None => None
      case Some((m, k)) => Some((s[0] + 16 * m, k + 1))
  }

  // ---------- the bijection ----------

  lemma {:induction false} TailValueOfTail(m: nat, t: seq<byte>)
    ensures TailValue(Tail(m) + t) == Some((m, |Tail(m)|))
  {
    var s := Tail(m) + t;
    if m >= 128 {
      var m' := (m - 128) / 128;
      assert s[1..] == Tail(m') + t;
      TailValueOfTail(m', t);
      assert 0x80 + m % 128 + 128 * m' == m;
    }
  }

  lemma {:induction false} TailOfTailValue(s: seq<byte>)
    requires TailValue(s).Some?
    ensures Tail(TailValue(s).value.0) <= s
    ensures TailValue(s).value.1 == |Tail(TailValue(s).value.0)|
  {
    if s[0] >= 128 {
      var rest := s[1..];
      TailOfTailValue(rest);
      var m := TailValue(rest).value.0;
      var b: nat := s[0];
      var whole := b + 128 * m;
      TailStep(b, m);
      assert s == [s[0]] + rest;
    }
  }

  lemma TailStep(b: nat, m: nat)
    requires 128 <= b < 256
    ensures Tail(b + 128 * m) == [b] + Tail(m)
  {
    var whole := b + 128 * m;
    assert (whole - 128) / 128 == m && 0x80 + whole % 128 == b;
  }

  /** Reading what was written, whatever follows it. */
  lemma ValueOfEncode(n: nat, t: seq<byte>)
    ensures Value(Encode(n) + t) == Some((n, |Encode(n)|))
  {
    if n >= 240 {
      var m := (n - 240) / 16;
      assert (Encode(n) + t)[1..] == Tail(m) + t;
      TailValueOfTail(m, t);
    }
  }

  lemma EncodeOfValue(s: seq<byte>)
    requires Value(s).Some?
    ensures Encode(Value(s).value.0) <= s
    ensures Value(s).value.1 == |Encode(Value(s).value.0)|
  {
    if s[0] >= 240 {
      var rest := s[1..];
      TailOfTailValue(rest);
      var m := TailValue(rest).value.0;
      var b: nat := s[0];
      var whole := b + 16 * m;
      assert (whole - 240) / 16 == m && 0xF0 + whole % 16 == b;
      assert s == [s[0]] + rest;
    }
  }

  /** `Value` finds `n` exactly in the byte strings that begin with the encoding of `n`. */
  lemma ValueIffEncoded(s: seq<byte>, n: nat)
    ensures Encode(n) <= s <==> Value(s).Some? && Value(s).value.0 == n
    ensures Encode(n) <= s ==> Value(s).value.1 == |Encode(n)|
  {
    if Encode(n) <= s {
      assert s == Encode(n) + s[|Encode(n)|..];
      ValueOfEncode(n, s[|Encode(n)|..]);
    }
    if Value(s).Some? {
      EncodeOfValue(s);
    }
  }

  /** No encoding is a prefix of another, so a stream splits in one way only. */
  lemma PrefixFree(n: nat, m: nat, s: seq<byte>)
    requires Encode(n) <= s && Encode(m) <= s
    ensures n == m
  {
    ValueIffEncoded(s, n);
    ValueIffEncoded(s, m);
  }

  /** A chain that never ends: the input is truncated. */
  predicate Truncated(s: seq<byte>) {
    s == [] || (s[0] >= 240 && forall k | 1 <= k < |s| :: s[k] >= 128)
  }

  /** The input begins with the encoding of a number beyond 64 bits. */
  ghost predicate Overflows(s: seq<byte>) {
    exists n: nat :: n >= LIMIT && Encode(n) <= s
  }

  lemma {:induction false} TailTruncated(s: seq<byte>)
    ensures TailValue(s).None? <==> forall k | 0 <= k < |s| :: s[k] >= 128
  {
    if s != [] && s[0] >= 128 {
      var rest := s[1..];
      TailTruncated(rest);
      assert forall k | 1 <= k < |s| :: s[k] == rest[k - 1];
      assert forall k | 0 <= k < |rest| :: rest[k] == s[k + 1];
    }
  }

  /** Every byte string either begins with exactly one encoding or is truncated. */
  lemma ValueUnlessTruncated(s: seq<byte>)
    ensures Value(s).None? <==> Truncated(s)
  {
    if s != [] && s[0] >= 240 {
      var rest := s[1..];
      TailTruncated(rest);
      assert forall k | 1 <= k < |s| :: s[k] == rest[k - 1];
      assert forall k | 0 <= k < |rest| :: rest[k] == s[k + 1];
    }
  }

  // ---------- the encoding in the protocol's own terms ----------

  /** The first `k` bytes of `s` are one encoding. */
  predicate Chain(s: seq<byte>, k: nat) {
    && 0 < k <= |s|
    && if s[0] < 240 then k == 1 else k >= 2 && s[k - 1] < 128 && forall i | 1 <= i < k - 1 :: s[i] >= 128
  }

  /** The first byte counts once, the second 2^4 times, and each further one 2^7 times as much. */
  function Sum(s: seq<byte>, k: nat): nat
    requires 0 < k <= |s|
  {
    if k == 1 then s[0] else Sum(s, k - 1) + Pow2(4 + 7 * (k - 2)) * s[k - 1]
  }

  lemma {:induction false} SumPending(s: seq<byte>, k: nat, i: nat)
    requires Chain(s, k) && 1 <= i < k
    ensures Pending(s, i, Sum(s, i), Pow2(4 + 7 * (i - 1)))
  {
    if i == 1 {
      SixtyBits();
    } else {
      SumPending(s, k, i - 1);
      PendingStep(s, i - 1, Sum(s, i - 1), Pow2(4 + 7 * (i - 2)));
      Pow2Seven(4 + 7 * (i - 2));
    }
  }

  /** A number and its encoding: the bytes of the chain, weighted and added up. */
  lemma ValueIsSum(s: seq<byte>, k: nat)
    requires Chain(s, k)
    ensures Value(s) == Some((Sum(s, k), k))
  {
    if k > 1 {
      SumPending(s, k, k - 1);
      PendingStep(s, k - 1, Sum(s, k - 1), Pow2(4 + 7 * (k - 2)));
    }
  }

  /** The numbers at which an encoding becomes longer. */
  lemma EncodedSizes(n: nat)
    ensures |Encode(n)| <= 1 <==> n < 240
    ensures |Encode(n)| <= 2 <==> n < 2288
    ensures |Encode(n)| <= 3 <==> n < 264432
    ensures |Encode(n)| <= 4 <==> n < 33818864
    ensures |Encode(n)| <= 5 <==> n < 4328786160
  {
    var m := if n < 240 then 0 else (n - 240) / 16;
    TailSize(m, 0);
    TailSize(m, 1);
    TailSize(m, 2);
    TailSize(m, 3);
    TailSize(m, 4);
    assert TailLimit(1) == 128 && TailLimit(2) == 16512 && TailLimit(3) == 2113664 && TailLimit(4) == 270549120;
  }

  // ---------- sizes ----------

  /** The first value whose tail takes more than `k` bytes. */
  function TailLimit(k: nat): nat {
    if k == 0 then 0 else 128 + 128 * TailLimit(k - 1)
  }

  lemma {:induction false} TailSize(m: nat, k: nat)
    ensures |Tail(m)| <= k <==> m < TailLimit(k)
    decreases k
  {
    if k > 0 && m >= 128 {
      TailSize((m - 128) / 128, k - 1);
    }
  }

  /** Ten bytes are enough for every 64-bit value, and nine are not. */
  lemma EncodedSizeBound(n: u64)
    ensures 1 <= |Encode(n)| <= MAX_ENCODED_SIZE
    ensures |Encode(LIMIT - 1)| == MAX_ENCODED_SIZE
  {
    var top := (LIMIT - 1 - 240) / 16;
    TailLimits();
    TailSize((if n < 240 then 240 else n as nat - 240) / 16, 9);
    TailSize(top, 9);
    TailSize(top, 8);
  }

  lemma TailLimits()
    ensures TailLimit(8) == 0x102_0408_1020_4080
    ensures TailLimit(9) == 0x8102_0408_1020_4080
  {
    assert TailLimit(2) == 0x4080;
    assert TailLimit(4) == 0x1020_4080;
    assert TailLimit(6) == 0x408_1020_4080;
  }

  // ---------- the code ----------

  /** `encoded_size`: how long the encoding is, without producing it. */
  method EncodedSize(n: u64) returns (size: nat)
    ensures size == |Encode(n)| && size <= MAX_ENCODED_SIZE
  {
    EncodedSizeBound(n);
    if n < 240 {
      return 1;
    }
    size := 2;
    var m: nat := (n - 240) / 16;
    while m >= 128
      invariant size - 1 + |Tail(m)| == |Encode(n)|
      decreases m
    {
      m := Left(m);
      size := size + 1;
    }
  }

  lemma SixtyBits()
    ensures Pow2(4) == 16 && Pow2(60) == 0x1000_0000_0000_0000
  {
    assert Pow2(2) == 4;
    Pow2Seven(4);
    Pow2Seven(11);
    Pow2Seven(18);
    Pow2Seven(25);
    Pow2Seven(32);
    Pow2Seven(39);
    Pow2Seven(46);
    Pow2Seven(53);
  }

  /** What is left to read after `i` bytes gave `n` and the next byte counts `unit` times. */
  ghost predicate Pending(s: seq<byte>, i: nat, n: nat, unit: nat)
    requires i <= |s|
  {
    Value(s) == match TailValue(s[i..])
      case None => None
      case Some((m, k)) => Some((n + unit * m, i + k))
  }

  lemma PendingStep(s: seq<byte>, i: nat, n: nat, unit: nat)
    requires i < |s| && Pending(s, i, n, unit)
    ensures s[i] < 128 ==> Value(s) == Some((n + unit * s[i], i + 1))
    ensures s[i] >= 128 ==> Pending(s, i + 1, n + unit * s[i], 128 * unit)
    ensures Value(s).Some? ==> Value(s).value.0 >= n + unit * s[i]
  {
    var rest := s[i..];
    assert rest[1..] == s[i + 1..];
    var b: nat := s[i];
    if TailValue(rest).Some? && b >= 128 {
      var m := TailValue(rest[1..]).value.0;
      Distribute(unit, b, m);
    }
  }

  lemma Distribute(unit: nat, b: nat, m: nat)
    ensures unit * (b + 128 * m) == unit * b + 128 * unit * m >= unit * b
  {
  }

  /** The check before the shift, `b > (max - n) >> shift`, is exactly the overflow test. */
  lemma OverflowTest(b: nat, n: nat, unit: nat)
    requires unit > 0 && n < LIMIT
    ensures b > (LIMIT - 1 - n) / unit <==> n + unit * b >= LIMIT
  {
    QuotientTest(LIMIT - 1 - n, unit, b);
  }

  lemma QuotientTest(room: nat, unit: nat, b: nat)
    requires unit > 0
    ensures b > room / unit <==> unit * b > room
  {
    var q := room / unit;
    assert room == unit * q + room % unit;
    if b > q {
      ScaleUp(unit, q + 1, b);
      assert unit * (q + 1) == unit * q + unit;
    } else {
      ScaleUp(unit, b, q);
    }
  }

  lemma ScaleUp(unit: nat, a: nat, b: nat)
    requires a <= b
    ensures unit * a <= unit * b
  {
    assert unit * (b - a) >= 0;
  }

  /**
   `decode`: succeeds exactly on the byte strings that begin with the encoding of some 64-bit
   number, and then returns that number and the length of its encoding.
   */
  method Decode(s: seq<byte>) returns (r: Option<(u64, nat)>)
    ensures r.Some? ==> Encode(r.value.0) <= s && r.value.1 == |Encode(r.value.0)| <= MAX_ENCODED_SIZE
    ensures r.None? <==> Truncated(s) || Overflows(s)
    ensures r == Value64(s)
  {
    Value64Meaning(s);
    if s == [] {
      return None;
    }
    if s[0] < 240 {
      return Some((s[0], 1));
    }
    ghost var shifts;
    r, shifts := DecodeChain(s);
  }

  /** Shifts of 4, 11 and so on, never by the width of the number or more. */
  ghost predicate SafeShifts(shifts: seq<nat>) {
    forall k | 0 <= k < |shifts| :: shifts[k] == 4 + 7 * k <= 60
  }

  /** The loop of `decode`, over the continuation bytes, with all the shifts it makes. */
  method DecodeChain(s: seq<byte>) returns (r: Option<(u64, nat)>, ghost shifts: seq<nat>)
    requires s != [] && s[0] >= 240
    ensures r == Value64(s) && SafeShifts(shifts)
  {
    var n: nat := s[0];
    var shift := 4;
    var i := 1;
    shifts := [];
    SixtyBits();
    while true
      invariant DecodeState(s, i, n, shift) && |shifts| == i - 1 && SafeShifts(shifts)
      decreases |s| - i
    {
      if i >= |s| {
        return None, shifts;
      }
      var b := s[i];
      shifts := shifts + [shift];
      DecodeStep(s, i, n, shift);
      if shift >= 64 || b > Room(n, shift) {
        return None, shifts;
      }
      i := i + 1;
      n := Added(n, b, shift);
      if b < 128 {
        return Some((n, i)), shifts;
      }
      shift := shift + 7;
    }
  }

  /** The largest byte that may still be added at `shift` without exceeding 64 bits. */
  function Room(n: nat, shift: nat): int
    requires n < LIMIT
  {
    (LIMIT - 1 - n) / Pow2(shift)
  }

  function Added(n: nat, b: byte, shift: nat): nat {
    n + Pow2(shift) * b
  }

  /** The loop of the decoder: `n` is what `i` bytes gave, and the shift stays at most 60. */
  ghost predicate DecodeState(s: seq<byte>, i: nat, n: nat, shift: nat) {
    1 <= i <= |s| && n < LIMIT && shift == 4 + 7 * (i - 1) <= 60 && Pending(s, i, n, Pow2(shift))
  }

  lemma DecodeStep(s: seq<byte>, i: nat, n: nat, shift: nat)
    requires DecodeState(s, i, n, shift) && i < |s|
    ensures s[i] > Room(n, shift) ==> Value64(s).None?
    ensures s[i] <= Room(n, shift) && s[i] < 128 ==> Value64(s) == Some((Added(n, s[i], shift), i + 1))
    ensures s[i] <= Room(n, shift) && s[i] >= 128 ==> DecodeState(s, i + 1, Added(n, s[i], shift), shift + 7)
  {
    PendingStep(s, i, n, Pow2(shift));
    OverflowTest(s[i], n, Pow2(shift));
    if s[i] <= Room(n, shift) && s[i] >= 128 {
      NeverPastSixty(s[i], Pow2(shift), shift);
      Pow2Seven(shift);
    }
  }

  /** A continuation byte at the last position below 64 bits would already overflow. */
  lemma NeverPastSixty(b: nat, unit: nat, shift: nat)
    requires b >= 128 && unit == Pow2(shift) && shift <= 60 && (shift - 4) % 7 == 0 && unit * b < LIMIT
    ensures shift <= 53
  {
    SixtyBits();
    assert unit * b >= 128 * unit;
  }

  /** `Value` cut off at 64 bits: what the decoder answers. */
  function Value64(s: seq<byte>): Option<(u64, nat)> {
    match Value(s)
    case None => None
    case Some((n, k)) => if n < LIMIT then Some((n, k)) else None
  }

  lemma Value64Meaning(s: seq<byte>)
    ensures Value64(s).Some? ==>
      Encode(Value64(s).value.0) <= s && Value64(s).value.1 == |Encode(Value64(s).value.0)| <= MAX_ENCODED_SIZE
    ensures Value64(s).None? <==> Truncated(s) || Overflows(s)
  {
    ValueUnlessTruncated(s);
    if Value(s).Some? {
      EncodeOfValue(s);
      var n := Value(s).value.0;
      if n < LIMIT {
        EncodedSizeBound(n);
      }
      forall m: nat | Encode(m) <= s ensures m == n { PrefixFree(m, n, s); }
    }
  }

  /** Decoding is determined by the bytes it consumes: extending the input changes nothing. */
  lemma Value64OfEncode(n: u64, t: seq<byte>)
    ensures Value64(Encode(n) + t) == Some((n, |Encode(n)|))
  {
    ValueOfEncode(n, t);
  }

  /** Every strict prefix of an encoding is rejected. */
  lemma Value64OfPrefix(n: u64, k: nat)
    requires k < |Encode(n)|
    ensures Value64(Encode(n)[..k]).None?
  {
    var s := Encode(n)[..k];
    if Value(s).Some? {
      var m := Value(s).value.0;
      EncodeOfValue(s);
      PrefixFree(m, n, Encode(n));
      assert false;
    }
  }

  /** The bytes of `s` from `at` replaced by `w`. */
  function Overwrite(s: seq<byte>, at: nat, w: seq<byte>): seq<byte>
    requires at + |w| <= |s|
  {
    s[..at] + w + s[at + |w|..]
  }

  lemma OverwriteNext(s: seq<byte>, at: nat, w: seq<byte>, b: byte)
    requires at + |w| < |s|
    ensures Overwrite(s, at, w)[at + |w| := b] == Overwrite(s, at, w + [b])
  {
  }

  /** The buffer, `was` before, now holds `done` from `at` on and is otherwise as it was. */
  ghost predicate Wrote(now: seq<byte>, was: seq<byte>, at: nat, done: seq<byte>) {
    at + |done| <= |was| && now == Overwrite(was, at, done)
  }

  /** The buffer now holds as much of `whole` as fits into `cap` bytes. */
  ghost predicate Filled(now: seq<byte>, was: seq<byte>, cap: nat, whole: seq<byte>) {
    cap <= |whole| && Wrote(now, was, 0, whole[..cap])
  }

  method Put(buf: array<byte>, ghost was: seq<byte>, at: nat, p: nat, ghost done: seq<byte>, b: byte)
    requires |was| == buf.Length && |done| == p && at + p < buf.Length
    requires Wrote(buf[..], was, at, done)
    modifies buf
    ensures Wrote(buf[..], was, at, done + [b])
  {
    ghost var now := buf[..];
    buf[at + p] := b;
    assert buf[..] == now[at + p := b];
    OverwriteNext(was, at, done, b);
  }

  method PutFirst(buf: array<byte>, at: nat, b: byte)
    requires at < buf.Length
    modifies buf
    ensures Wrote(buf[..], old(buf[..]), at, [b])
  {
    ghost var was := buf[..];
    buf[at] := b;
    assert buf[..] == was[at := b] == Overwrite(was, at, [b]);
  }

  /** Where the writing loops stand: `done` is written and `m` is left. */
  ghost predicate Midway(n: nat, done: seq<byte>, m: nat) {
    done + Tail(m) == Encode(n)
  }

  lemma MidwayStep(n: nat, done: seq<byte>, m: nat)
    requires Midway(n, done, m)
    ensures m >= 128 ==> Midway(n, done + [More(m)], Left(m))
    ensures m < 128 ==> done + [m] == Encode(n)
    ensures |done| < |Encode(n)| && done == Encode(n)[..|done|]
  {
    if m >= 128 {
      ConcatAssoc(done, [More(m)], Tail(Left(m)));
    }
  }

  /** `encode_unsafe`: writes the encoding at `at`, leaving every other byte alone. */
  method EncodeUnsafe(buf: array<byte>, at: nat, n: u64) returns (p: nat)
    requires at + |Encode(n)| <= buf.Length
    modifies buf
    ensures p == |Encode(n)|
    ensures Wrote(buf[..], old(buf[..]), at, Encode(n))
  {
    ghost var was := buf[..];
    if n < 240 {
      PutFirst(buf, at, n);
      return 1;
    }
    PutFirst(buf, at, Lead(n));
    ghost var done: seq<byte> := [Lead(n)];
    p := 1;
    var m: nat := (n - 240) / 16;
    while m >= 128
      invariant |done| == p && Midway(n, done, m) && Wrote(buf[..], was, at, done)
      decreases m
    {
      MidwayStep(n, done, m);
      Put(buf, was, at, p, done, More(m));
      done := done + [More(m)];
      p := p + 1;
      m := Left(m);
    }
    MidwayStep(n, done, m);
    Put(buf, was, at, p, done, m);
    p := p + 1;
  }

  /**
   `encode` with a capacity: fails exactly when the capacity is below the encoded size, and then
   has filled the capacity with the first bytes of the encoding and touched nothing else.
   */
  method EncodeBounded(buf: array<byte>, cap: nat, n: u64) returns (r: Option<nat>)
    requires cap <= buf.Length
    modifies buf
    ensures r.None? <==> cap < |Encode(n)|
    ensures r.Some? ==> r.value == |Encode(n)| && Wrote(buf[..], old(buf[..]), 0, Encode(n))
    ensures r.None? ==> Filled(buf[..], old(buf[..]), cap, Encode(n))
  {
    ghost var was := buf[..];
    if cap == 0 {
      assert Overwrite(was, 0, Encode(n)[..0]) == was;
      return None;
    }
    if n < 240 {
      PutFirst(buf, 0, n);
      return Some(1);
    }
    PutFirst(buf, 0, Lead(n));
    assert Midway(n, [Lead(n)], (n - 240) / 16);
    r := EncodeBoundedTail(buf, was, cap, n, (n - 240) / 16);
  }

  /** The loop of `encode`, over the continuation bytes. */
  method EncodeBoundedTail(buf: array<byte>, ghost was: seq<byte>, cap: nat, ghost n: nat, m0: nat)
    returns (r: Option<nat>)
    requires 0 < cap <= buf.Length == |was|
    requires Midway(n, [Lead(n)], m0) && Wrote(buf[..], was, 0, [Lead(n)])
    modifies buf
    ensures r.None? <==> cap < |Encode(n)|
    ensures r.Some? ==> r.value == |Encode(n)| && Wrote(buf[..], was, 0, Encode(n))
    ensures r.None? ==> Filled(buf[..], was, cap, Encode(n))
  {
    ghost var done: seq<byte> := [Lead(n)];
    var p := 1;
    var m := m0;
    while m >= 128
      invariant |done| == p <= cap && Midway(n, done, m) && Wrote(buf[..], was, 0, done)
      decreases m
    {
      MidwayStep(n, done, m);
      if p >= cap {
        return None;
      }
      Put(buf, was, 0, p, done, More(m));
      done := done + [More(m)];
      p := p + 1;
      m := Left(m);
    }
    MidwayStep(n, done, m);
    if p >= cap {
      return None;
    }
    Put(buf, was, 0, p, done, m);
    return Some(p + 1);
  }

  /** `encode_to_vec`: grows the vector by exactly the encoding. */
  method EncodeToVec(out: seq<byte>, n: u64) returns (out': seq<byte>)
    ensures out' == out + Encode(n)
  {
    var needed := EncodedSize(n);
    var room := new byte[needed];
    var _ := EncodeUnsafe(room, 0, n);
    out' := out + room[..];
  }
}
