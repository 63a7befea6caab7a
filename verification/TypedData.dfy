/** SPOE typed values (src/spoa/typed_data.cpp): their encoding, its exact size and its decoding. */
module TypedData {
  import opened Bytes
  import opened Varint
  import opened ProtocolIo

  type Octets4 = s: seq<byte> | |s| == 4 witness [0, 0, 0, 0]
  type Octets16 = s: seq<byte> | |s| == 16 witness [0, 0, 0, 0, 0, 0, 0, 0, 0, 0, 0, 0, 0, 0, 0, 0]

  datatype Typed =
    | Null
    | Boolean(boolean: bool)
    | Int32(i32: i32)
    | UInt32(u32: u32)
    | Int64(i64: i64)
    | UInt64(u64: u64)
    | IPv4(ipv4: Octets4)
    | IPv6(ipv6: Octets16)
    | Str(str: Text)
    | Binary(bin: Text)

  const TWO32: nat := 0x1_0000_0000

  /** A signed number as an unsigned 64-bit word, and the casts back. */
  function Word(i: i64): u64 {
    if i < 0 then i + LIMIT else i
  }

  function ToI64(n: u64): i64 {
    if n < LIMIT / 2 then n else n - LIMIT
  }

  function ToI32(n: u64): i32 {
    var low := n % TWO32;
    if low < TWO32 / 2 then low else low - TWO32
  }

  function ToU32(n: u64): u32 {
    n % TWO32
  }

  /** The type number, in the low four bits of the first byte. */
  function Kind(v: Typed): byte {
    match v
    case Null => 0
    case Boolean(_) => 1
    case Int32(_) => 2
    case UInt32(_) => 3
    case Int64(_) => 4
    case UInt64(_) => 5
    case IPv4(_) => 6
    case IPv6(_) => 7
    case Str(_) => 8
    case Binary(_) => 9
  }

  function Header(v: Typed): byte {
    if v == Boolean(true) then 0x11 else Kind(v)
  }

  /** What follows the first byte. */
  function Body(v: Typed): seq<byte> {
    match v
    case Null => []
    case Boolean(_) => []
    case Int32(i) => Encode(Word(i))
    case UInt32(u) => Encode(u)
    case Int64(i) => Encode(Word(i))
    case UInt64(u) => Encode(u)
    case IPv4(a) => a
    case IPv6(a) => a
    case Str(t) => Prefixed(t)
    case Binary(t) => Prefixed(t)
  }

  function Wire(v: Typed): seq<byte> {
    [Header(v)] + Body(v)
  }

  // ---------- reading ----------

  function NumberOf(kind: nat, n: u64): Typed
    requires 2 <= kind <= 5
  {
    if kind == 2 then Int32(ToI32(n))
    else if kind == 3 then UInt32(ToU32(n))
    else if kind == 4 then Int64(ToI64(n))
    else UInt64(n)
  }

  /** The value after a first byte of type `kind`, and how many bytes it takes. */
  function BodyOf(kind: nat, flag: bool, s: seq<byte>): Option<(Typed, nat)> {
    if kind == 0 then Some((Null, 0))
    else if kind == 1 then Some((Boolean(flag), 0))
    else if kind <= 5 then
      match Value64(s) {
        case None => None
        case Some((n, k)) => Some((NumberOf(kind, n), k))
      }
    else if kind == 6 then (if |s| < 4 then None else Some((IPv4(s[..4]), 4)))
    else if kind == 7 then (if |s| < 16 then None else Some((IPv6(s[..16]), 16)))
    else if kind <= 9 then
      match TextOf(s) {
        case None => None
        case Some((t, k)) => Some((if kind == 8 then Str(t) else Binary(t), k))
      }
    else None
  }

  /** The typed value at the head of `s`: only the low nibble and, for booleans, bit 4 matter. */
  function ValueOf(s: seq<byte>): Option<(Typed, nat)> {
    if s == [] then None
    else match BodyOf(s[0] % 16, s[0] / 16 % 2 == 1, s[1..])
      case None => None
      case Some((v, k)) => Some((v, k + 1))
  }

  // ---------- laws ----------

  lemma BodyInBounds(kind: nat, flag: bool, s: seq<byte>)
    requires BodyOf(kind, flag, s).Some?
    ensures BodyOf(kind, flag, s).value.1 <= |s|
  {
    if 2 <= kind <= 5 {
      Value64Meaning(s);
    } else if 8 <= kind {
      TextMeaning(s);
    }
  }

  lemma BodyLocal(kind: nat, flag: bool, s: seq<byte>, s': seq<byte>)
    requires BodyOf(kind, flag, s).Some? && Shares(s, s', BodyOf(kind, flag, s).value.1)
    ensures BodyOf(kind, flag, s') == BodyOf(kind, flag, s)
  {
    if 2 <= kind <= 5 {
      Value64Local(s, s');
    } else if 8 <= kind {
      TextLocal(s, s');
    }
  }

  /** Decoding consumes at least one byte, stays in bounds and looks at nothing further. */
  lemma ValueLocal(s: seq<byte>, s': seq<byte>)
    requires ValueOf(s).Some?
    ensures 1 <= ValueOf(s).value.1 <= |s|
    ensures Shares(s, s', ValueOf(s).value.1) ==> ValueOf(s') == ValueOf(s)
  {
    var k := ValueOf(s).value.1;
    BodyInBounds(s[0] % 16, s[0] / 16 % 2 == 1, s[1..]);
    if Shares(s, s', k) {
      assert s[0] == s[..k][0] == s'[..k][0] == s'[0];
      assert s[1..][..k - 1] == s[..k][1..] == s'[..k][1..] == s'[1..][..k - 1];
      BodyLocal(s[0] % 16, s[0] / 16 % 2 == 1, s[1..], s'[1..]);
    }
  }

  lemma CastsInvert(v: Typed)
    requires v.Int32? || v.Int64?
    ensures v.Int32? ==> ToI32(Word(v.i32)) == v.i32
    ensures v.Int64? ==> ToI64(Word(v.i64)) == v.i64
  {
    if v.Int32? {
      WordMod32(v.i32);
    }
  }

  lemma WordMod32(i: i32)
    ensures Word(i) % TWO32 == if i < 0 then i + TWO32 else i
  {
    if i < 0 {
      assert Word(i) == (i + TWO32) + TWO32 * (TWO32 - 1);
    }
  }

  lemma BodyRoundTrip(v: Typed)
    ensures BodyOf(Kind(v), v == Boolean(true), Body(v)) == Some((v, |Body(v)|))
  {
    match v
    case Null =>
    case Boolean(_) =>
    case Int32(i) => NumberRoundTrip(Word(i)); CastsInvert(v);
    case UInt32(u) => NumberRoundTrip(u);
    case Int64(i) => NumberRoundTrip(Word(i)); CastsInvert(v);
    case UInt64(u) => NumberRoundTrip(u);
    case IPv4(a) => assert a[..4] == a;
    case IPv6(a) => assert a[..16] == a;
    case Str(t) => TextIff(Prefixed(t), t);
    case Binary(t) => TextIff(Prefixed(t), t);
  }

  lemma NumberRoundTrip(n: u64)
    ensures Value64(Encode(n)) == Some((n, |Encode(n)|))
  {
    Value64OfEncode(n, []);
    assert Encode(n) + [] == Encode(n);
  }

  lemma WireReads(v: Typed, wire: seq<byte>)
    requires wire == Wire(v)
    ensures ValueOf(wire) == Some((v, |wire|))
  {
    BodyRoundTrip(v);
    assert wire[0] % 16 == Kind(v) && (wire[0] / 16 % 2 == 1 <==> v == Boolean(true));
    assert wire[1..] == Body(v);
  }

  /** Every value is read back from its encoding, whatever follows, consuming exactly that. */
  lemma RoundTrip(v: Typed, t: seq<byte>)
    ensures ValueOf(Wire(v) + t) == Some((v, |Wire(v)|))
  {
    WireReads(v, Wire(v));
    SharedPrefix(Wire(v), t);
    ValueLocal(Wire(v), Wire(v) + t);
  }

  lemma SharedPrefix(s: seq<byte>, t: seq<byte>)
    ensures Shares(s, s + t, |s|)
  {
  }

  /** Every strict prefix of what is consumed is rejected. */
  lemma PrefixRejected(s: seq<byte>, j: nat)
    requires ValueOf(s).Some? && j < ValueOf(s).value.1 && j <= |s|
    ensures ValueOf(s[..j]).None?
  {
    assert forall i | 0 <= i <= j :: s[..j][..i] == s[..i];
    if ValueOf(s[..j]).Some? {
      ValueLocal(s[..j], s);
    }
  }

  /** In particular a truncated encoding never decodes. */
  lemma TruncationRejected(v: Typed, j: nat)
    requires j < |Wire(v)|
    ensures ValueOf(Wire(v)[..j]).None?
  {
    RoundTrip(v, []);
    assert Wire(v) + [] == Wire(v);
    PrefixRejected(Wire(v), j);
  }

  /**
   The inputs that spell their value the way the encoder does: unused header bits clear, and
   32-bit numbers not cut down from longer ones.
   */
  predicate Canonical(s: seq<byte>)
    requires s != []
  {
    var h: nat := s[0];
    (h < 16 || h == 0x11)
    && (h == 2 && Value64(s[1..]).Some? ==>
          var n := Value64(s[1..]).value.0; n < TWO32 / 2 || n >= LIMIT - TWO32 / 2)
    && (h == 3 && Value64(s[1..]).Some? ==> Value64(s[1..]).value.0 < TWO32)
  }

  lemma BodyReencodes(kind: nat, flag: bool, s: seq<byte>, v: Typed, k: nat)
    requires BodyOf(kind, flag, s) == Some((v, k))
    ensures k <= |s| && Kind(v) == kind && (v == Boolean(true) <==> kind == 1 && flag)
    ensures kind != 2 && kind != 3 ==> Body(v) == s[..k]
    ensures kind == 2 || kind == 3 ==>
      Value64(s).Some? && s[..k] == Encode(Value64(s).value.0) && v == NumberOf(kind, Value64(s).value.0)
  {
    if 2 <= kind <= 5 {
      Value64Meaning(s);
    } else if 8 <= kind {
      TextMeaning(s);
    }
  }

  lemma EncodeInjective(n: nat, m: nat)
    ensures Encode(n) == Encode(m) <==> n == m
  {
    if Encode(n) == Encode(m) {
      PrefixFree(n, m, Encode(n));
    }
  }

  lemma CastIsExact(n: u64)
    ensures Word(ToI32(n)) == n <==> n < TWO32 / 2 || n >= LIMIT - TWO32 / 2
    ensures ToU32(n) == n <==> n < TWO32
  {
    var low, high := n % TWO32, n / TWO32;
    assert n == high * TWO32 + low;
  }

  lemma HeaderIsExact(h: nat, v: Typed)
    requires h < 256 && Kind(v) == h % 16 && (v == Boolean(true) <==> h % 16 == 1 && h / 16 % 2 == 1)
    ensures Header(v) == h <==> h == 0x11 || (h < 16)
  {
  }

  lemma SameHead(h: byte, body: seq<byte>, s: seq<byte>, k: nat)
    requires 1 <= k <= |s|
    ensures [h] + body == s[..k] <==> h == s[0] && body == s[1..][..k - 1]
  {
    assert s[..k] == [s[0]] + s[1..][..k - 1];
    assert ([h] + body)[1..] == body && s[..k][1..] == s[1..][..k - 1];
  }

  /** Re-encoding a decoded value gives back the bytes consumed exactly for canonical inputs. */
  lemma ReencodesIffCanonical(s: seq<byte>)
    requires ValueOf(s).Some?
    ensures ValueOf(s).value.1 <= |s|
    ensures Wire(ValueOf(s).value.0) == s[..ValueOf(s).value.1] <==> Canonical(s)
  {
    var (v, k) := ValueOf(s).value;
    var h: nat := s[0];
    BodyReencodes(h % 16, h / 16 % 2 == 1, s[1..], v, k - 1);
    SameHead(Header(v), Body(v), s, k);
    HeaderIsExact(h, v);
    if h % 16 == 2 || h % 16 == 3 {
      NumberReencodes(h % 16, Value64(s[1..]).value.0);
    }
  }

  lemma NumberReencodes(kind: nat, n: u64)
    requires kind == 2 || kind == 3
    ensures Body(NumberOf(kind, n)) == Encode(n) <==>
      if kind == 2 then n < TWO32 / 2 || n >= LIMIT - TWO32 / 2 else n < TWO32
  {
    CastIsExact(n);
    EncodeInjective(if kind == 2 then Word(ToI32(n)) else ToU32(n), n);
  }

  // ---------- the code ----------

  /** `encoded_size`. */
  method EncodedSize(v: Typed) returns (size: nat)
    ensures size == |Wire(v)|
  {
    match v
    case Null => size := 1;
    case Boolean(_) => size := 1;
    case Int32(i) => size := Varint.EncodedSize(Word(i)); size := size + 1;
    case UInt32(u) => size := Varint.EncodedSize(u); size := size + 1;
    case Int64(i) => size := Varint.EncodedSize(Word(i)); size := size + 1;
    case UInt64(u) => size := Varint.EncodedSize(u); size := size + 1;
    case IPv4(a) => size := 1 + |a|;
    case IPv6(a) => size := 1 + |a|;
    case Str(t) => size := Varint.EncodedSize(|t|); size := 1 + size + |t|;
    case Binary(t) => size := Varint.EncodedSize(|t|); size := 1 + size + |t|;
  }

  /** What a write of the body leaves behind when the body does not fit into `room` bytes. */
  function BodyRest(v: Typed, room: nat): seq<byte> {
    if v.Str? && |Encode(|v.str|)| <= room then Encode(|v.str|)
    else if v.Binary? && |Encode(|v.bin|)| <= room then Encode(|v.bin|)
    else []
  }

  /** What a failed `encode` leaves behind. */
  function WireRest(v: Typed, room: nat): seq<byte> {
    if room == 0 then [] else [Header(v)] + BodyRest(v, room - 1)
  }

  method WriteBody(writer: BufferWriter, v: Typed) returns (ok: bool)
    requires writer.Valid()
    modifies writer, writer.buffer
    ensures writer.Valid() && ok == (|Body(v)| <= writer.buffer.Length - old(writer.pos))
    ensures writer.Appended(true, if ok then Body(v) else BodyRest(v, writer.buffer.Length - old(writer.pos)))
  {
    assert writer.buffer[..writer.pos] == writer.buffer[..][..writer.pos] + [];
    match v
    case Null => ok := true;
    case Boolean(_) => ok := true;
    case Int32(i) => ok := writer.WriteVarint(Word(i));
    case UInt32(u) => ok := writer.WriteVarint(u);
    case Int64(i) => ok := writer.WriteVarint(Word(i));
    case UInt64(u) => ok := writer.WriteVarint(u);
    case IPv4(a) => ok := writer.WriteBytes(a);
    case IPv6(a) => ok := writer.WriteBytes(a);
    case Str(t) => ok := writer.WriteLengthPrefixed(t);
    case Binary(t) => ok := writer.WriteLengthPrefixed(t);
  }

  /** `encode` into a writer: fails exactly when the encoding does not fit, leaving only its first parts. */
  method EncodeTo(writer: BufferWriter, v: Typed) returns (ok: bool)
    requires writer.Valid()
    modifies writer, writer.buffer
    ensures writer.Valid() && ok == (|Wire(v)| <= writer.buffer.Length - old(writer.pos))
    ensures writer.Appended(true, if ok then Wire(v) else WireRest(v, writer.buffer.Length - old(writer.pos)))
  {
    ghost var was, start := writer.buffer[..], writer.pos;
    ghost var room := writer.buffer.Length - writer.pos;
    ok := writer.WriteByte(Header(v));
    if !ok {
      assert writer.buffer[..writer.pos] == was[..start] + [];
      return;
    }
    ghost var mid, middle := writer.buffer[..], writer.pos;
    ok := WriteBody(writer, v);
    ghost var w := if ok then Body(v) else BodyRest(v, room - 1);
    TwoWrites(was, start, mid, middle, writer.buffer[..], writer.pos, [Header(v)], w);
  }

  /** `encode` into a vector: room for the exact size is made first, so the writer cannot fail. */
  method EncodeAppend(out: seq<byte>, v: Typed) returns (out': seq<byte>)
    ensures out' == out + Wire(v)
  {
    var size := EncodedSize(v);
    var room := new byte[size];
    var writer := new BufferWriter(room);
    ghost var was := room[..];
    var ok := EncodeTo(writer, v);
    assert ok;
    FullyWritten(room[..], was, Wire(v));
    out' := out + room[..];
  }

  lemma FullyWritten(now: seq<byte>, was: seq<byte>, w: seq<byte>)
    requires |now| == |w| && now[..|w|] == was[..0] + w
    ensures now == w
  {
  }

  /** `decode`: takes the value at the cursor, or fails. */
  method DecodeFrom(reader: Reader) returns (r: Option<Typed>)
    requires reader.Valid()
    modifies reader
    ensures reader.Valid()
    ensures r.None? <==> ValueOf(old(reader.Rest())).None?
    ensures r.Some? ==> ValueOf(old(reader.Rest())) == Some((r.value, reader.pos - old(reader.pos)))
  {
    ghost var rest := reader.Rest();
    var header := reader.ReadByte();
    if header.None? {
      return None;
    }
    assert reader.Rest() == rest[1..];
    r := DecodeBody(reader, header.value % 16, header.value / 16 % 2 == 1);
  }

  method DecodeBody(reader: Reader, kind: nat, flag: bool) returns (r: Option<Typed>)
    requires reader.Valid()
    modifies reader
    ensures reader.Valid()
    ensures r.None? <==> BodyOf(kind, flag, old(reader.Rest())).None?
    ensures r.Some? ==> BodyOf(kind, flag, old(reader.Rest())) == Some((r.value, reader.pos - old(reader.pos)))
  {
    if kind == 0 {
      r := Some(Null);
    } else if kind == 1 {
      r := Some(Boolean(flag));
    } else if kind <= 5 {
      var n := reader.ReadVarint();
      r := if n.None? then None else Some(NumberOf(kind, n.value));
    } else if kind == 6 {
      var a := reader.ReadBytes(4);
      r := if a.None? then None else Some(IPv4(a.value));
    } else if kind == 7 {
      var a := reader.ReadBytes(16);
      r := if a.None? then None else Some(IPv6(a.value));
    } else if kind <= 9 {
      ghost var rest := reader.Rest();
      var t := reader.ReadLengthPrefixed();
      if t.Some? { TextMeaning(rest); }
      r := if t.None? then None else Some(if kind == 8 then Str(t.value) else Binary(t.value));
    } else {
      r := None;
    }
  }
}
