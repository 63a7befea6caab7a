/**
 The cursors of the SPOE codec (src/spoa/protocol_io.h): a reader over a received payload and a
 writer into a buffer of fixed size. An exception of the original is a `None` or a `false` here.
 */
module ProtocolIo {
  import opened Bytes
  import opened Varint

  /** A byte string whose length is a 64-bit number. */
  type Text = s: seq<byte> | |s| < LIMIT

  /** A byte string with its length in front. */
  function Prefixed(t: Text): seq<byte> {
    Encode(|t|) + t
  }

  /** The length-prefixed byte string at the head of `s`, and how many bytes it takes. */
  function TextOf(s: seq<byte>): Option<(Text, nat)> {
    match Value64(s)
    case None => None
    case Some((n, k)) =>
      Value64Meaning(s);
      if n > |s| - k then None else Some((s[k..k + n], k + n))
  }

  /** `s` and `s'` have their first `k` bytes in common. */
  ghost predicate Shares(s: seq<byte>, s': seq<byte>, k: nat) {
    k <= |s| && k <= |s'| && s[..k] == s'[..k]
  }

  /** What is read depends on nothing but the bytes consumed. */
  lemma Value64Local(s: seq<byte>, s': seq<byte>)
    requires Value64(s).Some? && Shares(s, s', Value64(s).value.1)
    ensures Value64(s') == Value64(s)
  {
    var (n, k) := Value64(s).value;
    Value64Meaning(s);
    assert Encode(n) == s[..k] == s'[..k];
    ValueIffEncoded(s', n);
  }

  lemma TextOfPrefixed(s: seq<byte>, t: Text, k: nat)
    requires k == |Encode(|t|)| && Prefixed(t) <= s
    ensures TextOf(s) == Some((t, |Prefixed(t)|))
  {
    assert Encode(|t|) == Prefixed(t)[..k] == s[..k];
    ValueIffEncoded(s, |t|);
    assert s[k..k + |t|] == Prefixed(t)[k..] == t;
  }

  lemma PrefixedOfText(s: seq<byte>, t: Text, c: nat)
    requires TextOf(s) == Some((t, c))
    ensures Prefixed(t) <= s && c == |Prefixed(t)|
  {
    Value64Meaning(s);
    var k := Value64(s).value.1;
    assert s[..c] == s[..k] + s[k..c];
  }

  /** A byte string is read exactly where its prefixed form stands. */
  lemma TextIff(s: seq<byte>, t: Text)
    ensures Prefixed(t) <= s <==> TextOf(s).Some? && TextOf(s).value.0 == t
    ensures Prefixed(t) <= s ==> TextOf(s) == Some((t, |Prefixed(t)|))
  {
    if Prefixed(t) <= s {
      TextOfPrefixed(s, t, |Encode(|t|)|);
    }
    if TextOf(s).Some? {
      PrefixedOfText(s, TextOf(s).value.0, TextOf(s).value.1);
    }
  }

  lemma TextMeaning(s: seq<byte>)
    requires TextOf(s).Some?
    ensures Prefixed(TextOf(s).value.0) <= s
    ensures 1 <= TextOf(s).value.1 == |Prefixed(TextOf(s).value.0)| <= |s|
  {
    PrefixedOfText(s, TextOf(s).value.0, TextOf(s).value.1);
  }

  lemma TextLocal(s: seq<byte>, s': seq<byte>)
    requires TextOf(s).Some? && Shares(s, s', TextOf(s).value.1)
    ensures TextOf(s') == TextOf(s)
  {
    TextMeaning(s);
    var t := TextOf(s).value.0;
    assert Prefixed(t) == s[..|Prefixed(t)|];
    TextIff(s', t);
  }

  /** A cursor over received bytes; it never leaves the payload. */
  class Reader {
    const data: seq<byte>
    var pos: nat

    ghost predicate Valid()
      reads this
    {
      pos <= |data|
    }

    function Rest(): seq<byte>
      requires Valid()
      reads this
    {
      data[pos..]
    }

    constructor (bytes: seq<byte>)
      ensures Valid() && data == bytes && pos == 0 && Rest() == bytes
    {
      data := bytes;
      pos := 0;
    }

    method Remaining() returns (n: nat)
      requires Valid()
      ensures n == |Rest()|
    {
      n := |data| - pos;
    }

    method ReadBytes(count: nat) returns (r: Option<seq<byte>>)
      requires Valid()
      modifies this
      ensures Valid()
      ensures r.None? <==> count > |old(Rest())|
      ensures r.Some? ==> r.value == old(Rest())[..count] && pos == old(pos) + count
      ensures r.None? ==> pos == old(pos)
    {
      if count > |data| - pos {
        return None;
      }
      r := Some(data[pos..pos + count]);
      pos := pos + count;
    }

    method ReadByte() returns (r: Option<byte>)
      requires Valid()
      modifies this
      ensures Valid()
      ensures r.None? <==> old(Rest()) == []
      ensures r.Some? ==> r.value == old(Rest())[0] && pos == old(pos) + 1
      ensures r.None? ==> pos == old(pos)
    {
      var bytes := ReadBytes(1);
      r := if bytes.None? then None else Some(bytes.value[0]);
    }

    method ReadVarint() returns (r: Option<u64>)
      requires Valid()
      modifies this
      ensures Valid()
      ensures r.None? <==> Value64(old(Rest())).None?
      ensures r.Some? ==> Value64(old(Rest())) == Some((r.value, pos - old(pos)))
      ensures r.None? ==> pos == old(pos)
    {
      var decoded := Decode(Rest());
      if decoded.None? {
        return None;
      }
      r := Some(decoded.value.0);
      pos := pos + decoded.value.1;
    }

    method ReadLengthPrefixed() returns (r: Option<Text>)
      requires Valid()
      modifies this
      ensures Valid()
      ensures r.None? <==> TextOf(old(Rest())).None?
      ensures r.Some? ==> TextOf(old(Rest())) == Some((r.value, pos - old(pos)))
    {
      ghost var rest := Rest();
      Value64Meaning(rest);
      var length := ReadVarint();
      if length.None? {
        return None;
      }
      ghost var k := Value64(rest).value.1;
      assert Rest() == rest[k..];
      if length.value > |data| - pos {
        return None;
      }
      var bytes := ReadBytes(length.value);
      assert rest[k..][..length.value] == rest[k..k + length.value];
      r := Some(bytes.value);
    }
  }

  /** A cursor into a buffer of fixed size; it never writes past the end. */
  class BufferWriter {
    const buffer: array<byte>
    var pos: nat

    ghost predicate Valid()
      reads this
    {
      pos <= buffer.Length
    }

    function Written(): seq<byte>
      requires Valid()
      reads this, buffer
    {
      buffer[..pos]
    }

    constructor (span: array<byte>)
      ensures Valid() && buffer == span && pos == 0 && Written() == []
    {
      buffer := span;
      pos := 0;
    }

    /** What a write of `w` does: all of `w`, or nothing at all when it does not fit. */
    twostate predicate Appended(ok: bool, w: seq<byte>)
      reads this, buffer
    {
      && ok == (|w| <= buffer.Length - old(pos))
      && (ok ==> pos == old(pos) + |w| && buffer[..pos] == old(buffer[..])[..old(pos)] + w)
      && (ok ==> buffer[pos..] == old(buffer[..])[pos..])
      && (!ok ==> pos == old(pos) && buffer[..] == old(buffer[..]))
    }

    method WriteBytes(w: seq<byte>) returns (ok: bool)
      requires Valid()
      modifies this, buffer
      ensures Valid() && Appended(ok, w)
    {
      if |w| > buffer.Length - pos {
        return false;
      }
      ghost var was := buffer[..];
      for k := 0 to |w|
        invariant Valid() && pos == old(pos) && Wrote(buffer[..], was, pos, w[..k])
      {
        Put(buffer, was, pos, k, w[..k], w[k]);
        assert w[..k] + [w[k]] == w[..k + 1];
      }
      assert w[..|w|] == w;
      AfterWrite(buffer[..], was, pos, w);
      pos := pos + |w|;
      ok := true;
    }

    method WriteByte(b: byte) returns (ok: bool)
      requires Valid()
      modifies this, buffer
      ensures Valid() && Appended(ok, [b])
    {
      if pos >= buffer.Length {
        return false;
      }
      ghost var was := buffer[..];
      PutFirst(buffer, pos, b);
      AfterWrite(buffer[..], was, pos, [b]);
      pos := pos + 1;
      ok := true;
    }

    method WriteVarint(n: u64) returns (ok: bool)
      requires Valid()
      modifies this, buffer
      ensures Valid() && Appended(ok, Encode(n))
    {
      var needed := EncodedSize(n);
      if needed > buffer.Length - pos {
        return false;
      }
      ghost var was := buffer[..];
      var _ := EncodeUnsafe(buffer, pos, n);
      AfterWrite(buffer[..], was, pos, Encode(n));
      pos := pos + needed;
      ok := true;
    }

    /** The length and then the bytes; when only the length fits, it stays behind. */
    method WriteLengthPrefixed(t: Text) returns (ok: bool)
      requires Valid()
      modifies this, buffer
      ensures Valid() && ok == (|Prefixed(t)| <= buffer.Length - old(pos))
      ensures ok ==> Appended(true, Prefixed(t))
      ensures !ok ==> Appended(|Encode(|t|)| <= buffer.Length - old(pos), Encode(|t|))
    {
      ghost var was, start := buffer[..], pos;
      ok := WriteVarint(|t|);
      if !ok {
        return;
      }
      ghost var mid, middle := buffer[..], pos;
      ok := WriteBytes(t);
      if ok {
        TwoWrites(was, start, mid, middle, buffer[..], pos, Encode(|t|), t);
      } else {
        assert buffer[..pos] == mid[..pos] && buffer[pos..] == mid[pos..];
      }
    }

    /** Four bytes, most significant first. */
    method WriteU32Be(val: u32) returns (ok: bool)
      requires Valid()
      modifies this, buffer
      ensures Valid() && Appended(ok, Big32(val))
    {
      if 4 > buffer.Length - pos {
        return false;
      }
      ok := WriteBytes(Big32(val));
    }
  }

  function Big32(n: u32): (s: seq<byte>)
    ensures |s| == 4 && BigEndian(s) == n
  {
    var s: seq<byte> := [n / 0x100_0000, n / 0x1_0000 % 256, n / 256 % 256, n % 256];
    BigEndian4(s);
    FourDigits(n);
    s
  }

  lemma FourDigits(n: nat)
    ensures n == n / 0x100_0000 * 0x100_0000 + n / 0x1_0000 % 256 * 0x1_0000 + n / 256 % 256 * 256 + n % 256
  {
    assert n / 0x1_0000 / 256 == n / 0x100_0000 && n / 256 / 256 == n / 0x1_0000;
  }

  lemma AfterWrite(now: seq<byte>, was: seq<byte>, at: nat, w: seq<byte>)
    requires Wrote(now, was, at, w)
    ensures now[..at + |w|] == was[..at] + w && now[at + |w|..] == was[at + |w|..]
  {
  }

  /** Two writes in a row are one write of both. */
  lemma TwoWrites(was: seq<byte>, a: nat, mid: seq<byte>, b: nat, now: seq<byte>, c: nat, v: seq<byte>, w: seq<byte>)
    requires |was| == |mid| == |now| && b == a + |v| && c == b + |w| && c <= |now|
    requires mid[..b] == was[..a] + v && mid[b..] == was[b..]
    requires now[..c] == mid[..b] + w && now[c..] == mid[c..]
    ensures now[..c] == was[..a] + (v + w) && now[c..] == was[c..]
  {
    assert mid[c..] == mid[b..][|w|..];
    assert was[c..] == was[b..][|w|..];
  }
}
