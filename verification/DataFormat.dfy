/**
 The MaxMind DB "Data Field Format": a reader as the format specifies it, and the
 encoders of the builder. The builder writes the extended type byte after the
 size bytes, while the format puts it before them, so headers of extended types
 read back only for the sizes described by `HeaderExact`.
 */
module DataFormat {
  import opened Bytes
  import opened ContentOrder

  const TWO32 := 0x1_0000_0000

  // ---- encoders of the builder --------------------------------------------

  /** encode_ctrl_and_size; the size arrives as a 32-bit number. */
  function Header(kind: nat, size: nat): seq<byte>
    requires 2 <= kind < 16
  {
    var s := size % TWO32;
    var ctrl := if kind < 8 then kind * 32 else 0;
    (if s < 29 then [ctrl + s]
     else if s < 285 then [ctrl + 29, s - 29]
     else if s < 65821 then [ctrl + 30, (s - 285) / 256, (s - 285) % 256]
     else
       var rem := s - 65821;
       [ctrl + 31, rem / 65536 % 256, rem / 256 % 256, rem % 256])
    + (if kind >= 8 then [kind - 7] else [])
  }

  /** encode_pointer. */
  function Pointer(offset: nat): seq<byte>
    requires offset < TWO32
  {
    if offset < 2048 then [32 + offset / 256, offset % 256]
    else if offset < 526336 then
      var o := offset - 2048;
      [40 + o / 65536, o / 256 % 256, o % 256]
    else if offset < 134744064 then
      var o := offset - 526336;
      [48 + o / 16777216, o / 65536 % 256, o / 256 % 256, o % 256]
    else
      [56, offset / 16777216, offset / 65536 % 256, offset / 256 % 256, offset % 256]
  }

  /** The bytes of a number, most significant first, without leading zeros. */
  function UintBytes(n: nat): seq<byte> {
    if n == 0 then [] else UintBytes(n / 256) + [n % 256]
  }

  function IntBytes(i: i32): seq<byte> {
    var u := if i < 0 then i + TWO32 else i;
    [u / 16777216, u / 65536 % 256, u / 256 % 256, u % 256]
  }

  predicate IsScalar(v: Value) {
    !v.Null? && !v.Map? && !v.Arr?
  }

  /** The data type number of a value without children. */
  function Kind(v: Value): (k: nat)
    requires IsScalar(v)
    ensures 2 <= k < 16
  {
    match v
    case Str(_) => 2
    case Blob(_) => 4
    case U16(_) => 5
    case U32(_) => 6
    case I32(_) => 8
    case U64(_) => 9
    case Bool(_) => 14
  }

  function Payload(v: Value): seq<byte>
    requires IsScalar(v)
  {
    match v
    case Str(s) => s
    case Blob(s) => s
    case U16(n) => UintBytes(n)
    case U32(n) => UintBytes(n)
    case U64(n) => UintBytes(n)
    case I32(i) => IntBytes(i)
    case Bool(_) => []
  }

  /** A boolean is its own size; every other size is the length of the payload. */
  function SizeOf(v: Value): nat
    requires IsScalar(v)
  {
    if v.Bool? then if v.b then 1 else 0 else |Payload(v)|
  }

  /** The encoding of a value without children. */
  function ScalarBytes(v: Value): seq<byte>
    requires IsScalar(v)
  {
    Header(Kind(v), SizeOf(v)) + Payload(v)
  }

  // ---- the reader of the format -------------------------------------------

  datatype Head = Head(kind: nat, size: nat, next: nat)

  /** Control byte, then the extended type byte if any, then the size bytes. */
  function ReadHead(d: seq<byte>, pos: nat): Option<Head> {
    if pos >= |d| || (d[pos] / 32 == 0 && pos + 1 >= |d|) then None
    else
      var extended := d[pos] / 32 == 0;
      var kind := if extended then 7 + Octet(d, pos + 1) else Octet(d, pos) / 32;
      var p := if extended then pos + 2 else pos + 1;
      var low := d[pos] % 32;
      if low < 29 then Some(Head(kind, low, p))
      else if p + low - 28 > |d| then None
      else Some(Head(kind, SizeField(d, p, low), p + low - 28))
  }

  function SizeField(d: seq<byte>, p: nat, low: nat): nat
    requires 29 <= low < 32 && p + low - 28 <= |d|
  {
    if low == 29 then 29 + Octet(d, p)
    else if low == 30 then 285 + Octet(d, p) * 256 + Octet(d, p + 1)
    else 65821 + Octet(d, p) * 65536 + Octet(d, p + 1) * 256 + Octet(d, p + 2)
  }

  datatype Target = Target(offset: nat, next: nat)

  function ReadPointer(d: seq<byte>, pos: nat): Option<Target>
    requires pos < |d|
  {
    var size, high := Octet(d, pos) / 8 % 4, Octet(d, pos) % 8;
    if pos + 2 + size > |d| then None
    else Some(Target(PointerField(d, pos + 1, size, high), pos + 2 + size))
  }

  function PointerField(d: seq<byte>, p: nat, size: nat, high: nat): nat
    requires size < 4 && p + 1 + size <= |d|
  {
    if size == 0 then high * 256 + Octet(d, p)
    else if size == 1 then 2048 + high * 65536 + Octet(d, p) * 256 + Octet(d, p + 1)
    else if size == 2 then
      526336 + high * 16777216 + Octet(d, p) * 65536 + Octet(d, p + 1) * 256 + Octet(d, p + 2)
    else
      Octet(d, p) * 16777216 + Octet(d, p + 1) * 65536 + Octet(d, p + 2) * 256 + Octet(d, p + 3)
  }

  predicate IsPointer(d: seq<byte>, pos: nat) {
    pos < |d| && d[pos] / 32 == 1
  }

  datatype Item = Item(value: Value, next: nat)
  datatype Items = Items(values: seq<Value>, next: nat)
  datatype FieldItems = FieldItems(fields: seq<Field>, next: nat)

  /**
   Reads one value; `fuel` bounds the nesting of containers. A strict reader follows pointers to
   smaller offsets only, any other follows all pointers that do not lead to another pointer.
   */
  function Read(d: seq<byte>, pos: nat, fuel: nat, strict: bool): Option<Item>
    decreases fuel, 2
  {
    if IsPointer(d, pos) then
      match ReadPointer(d, pos)
      case None => None
      case Some(t) =>
        if t.offset >= (if strict then pos else |d|) || IsPointer(d, t.offset) then None
        else
          match ReadInline(d, t.offset, fuel, strict)
          case None => None
          case Some(item) => Some(Item(item.value, t.next))
    else ReadInline(d, pos, fuel, strict)
  }

  /** Reads a value that is not a pointer. */
  function ReadInline(d: seq<byte>, pos: nat, fuel: nat, strict: bool): Option<Item>
    decreases fuel, 1
  {
    match ReadHead(d, pos)
    case None => None
    case Some(h) =>
      if h.kind == 7 then
        if fuel == 0 then None
        else
          match ReadFields(d, h.next, h.size, fuel - 1, strict)
          case None => None
          case Some(fs) => Some(Item(Map(fs.fields), fs.next))
      else if h.kind == 11 then
        if fuel == 0 then None
        else
          match ReadSeq(d, h.next, h.size, fuel - 1, strict)
          case None => None
          case Some(xs) => Some(Item(Arr(xs.values), xs.next))
      else ReadScalar(d, h)
  }

  function ReadSeq(d: seq<byte>, pos: nat, n: nat, fuel: nat, strict: bool): Option<Items>
    decreases fuel, 3, n
  {
    if n == 0 then Some(Items([], pos))
    else
      match Read(d, pos, fuel, strict)
      case None => None
      case Some(x) =>
        match ReadSeq(d, x.next, n - 1, fuel, strict)
        case None => None
        case Some(xs) => Some(Items([x.value] + xs.values, xs.next))
  }

  function ReadFields(d: seq<byte>, pos: nat, n: nat, fuel: nat, strict: bool): Option<FieldItems>
    decreases fuel, 3, n
  {
    if n == 0 then Some(FieldItems([], pos))
    else
      match Read(d, pos, fuel, strict)
      case None => None
      case Some(k) =>
        if !k.value.Str? then None
        else
          match Read(d, k.next, fuel, strict)
          case None => None
          case Some(x) =>
            match ReadFields(d, x.next, n - 1, fuel, strict)
            case None => None
            case Some(fs) => Some(FieldItems([Field(k.value.text, x.value)] + fs.fields, fs.next))
  }

  function ReadScalar(d: seq<byte>, h: Head): Option<Item> {
    if h.kind == 14 then
      if h.size > 1 then None else Some(Item(Bool(h.size == 1), h.next))
    else if h.next + h.size > |d| then None
    else
      var s, end := d[h.next..h.next + h.size], h.next + h.size;
      BigEndianBound(s);
      if h.kind == 2 then Some(Item(Str(s), end))
      else if h.kind == 4 then Some(Item(Blob(s), end))
      else if h.kind == 5 && h.size <= 2 then Some(Item(U16(BigEndian(s)), end))
      else if h.kind == 6 && h.size <= 4 then Some(Item(U32(BigEndian(s)), end))
      else if h.kind == 9 && h.size <= 8 then Some(Item(U64(BigEndian(s)), end))
      else if h.kind == 8 && h.size <= 4 then Some(Item(I32(Signed32(BigEndian(s))), end))
      else None
  }

  function Signed32(u: u32): i32 {
    if u < 0x8000_0000 then u else u - TWO32
  }

  // ---- numbers ------------------------------------------------------------

  function Pow256(k: nat): nat {
    if k == 0 then 1 else 256 * Pow256(k - 1)
  }

  lemma {:induction false} BigEndianBelowPow(s: seq<byte>)
    ensures BigEndian(s) < Pow256(|s|)
  {
    if s != [] { BigEndianBelowPow(s[..|s| - 1]); }
  }

  lemma {:induction false} Pow256Mono(a: nat, b: nat)
    requires a <= b
    ensures Pow256(a) <= Pow256(b)
  {
    if a < b { Pow256Mono(a, b - 1); }
  }

  lemma BigEndianBound(s: seq<byte>)
    ensures |s| <= 2 ==> BigEndian(s) < 0x1_0000
    ensures |s| <= 4 ==> BigEndian(s) < TWO32
    ensures |s| <= 8 ==> BigEndian(s) < 0x1_0000_0000_0000_0000
  {
    BigEndianBelowPow(s);
    assert Pow256(2) == 0x1_0000;
    assert Pow256(4) == 0x1_0000 * 0x1_0000;
    assert Pow256(6) == 0x1_0000 * TWO32;
    assert Pow256(8) == 0x1_0000 * Pow256(6);
    if |s| <= 2 { Pow256Mono(|s|, 2); }
    if |s| <= 4 { Pow256Mono(|s|, 4); }
    if |s| <= 8 { Pow256Mono(|s|, 8); }
  }

  lemma {:induction false} UintBytesRead(n: nat)
    ensures BigEndian(UintBytes(n)) == n
  {
    if n > 0 {
      UintBytesRead(n / 256);
      assert UintBytes(n)[..|UintBytes(n)| - 1] == UintBytes(n / 256);
    }
  }

  lemma {:induction false} UintBytesLength(n: nat, k: nat)
    requires n < Pow256(k)
    ensures |UintBytes(n)| <= k
  {
    if n > 0 { UintBytesLength(n / 256, k - 1); }
  }

  lemma UintBytesFit(n: nat)
    ensures n < 0x1_0000 ==> |UintBytes(n)| <= 2
    ensures n < TWO32 ==> |UintBytes(n)| <= 4
    ensures n < 0x1_0000_0000_0000_0000 ==> |UintBytes(n)| <= 8
  {
    assert Pow256(2) == 0x1_0000;
    assert Pow256(4) == 0x1_0000 * 0x1_0000;
    assert Pow256(6) == 0x1_0000 * TWO32;
    assert Pow256(8) == 0x1_0000 * Pow256(6);
    if n < 0x1_0000 { UintBytesLength(n, 2); }
    if n < TWO32 { UintBytesLength(n, 4); }
    if n < 0x1_0000_0000_0000_0000 { UintBytesLength(n, 8); }
  }

  lemma Bytes4(n: nat, h: nat)
    requires h == n / 16777216
    ensures n == h * 16777216 + n / 65536 % 256 * 65536 + n / 256 % 256 * 256 + n % 256
  {
    assert n / 65536 == h * 256 + n / 65536 % 256;
    assert n / 256 == (n / 65536) * 256 + n / 256 % 256;
  }

  lemma IntBytesRead(i: i32)
    ensures |IntBytes(i)| == 4
    ensures BigEndian(IntBytes(i)) < TWO32 && Signed32(BigEndian(IntBytes(i))) == i
  {
    var u := if i < 0 then i + TWO32 else i;
    BigEndian4(IntBytes(i));
    Bytes4(u, u / 16777216);
  }

  // ---- headers and pointers -----------------------------------------------

  /** Largest size the three size bytes can express. */
  const MAX_SIZE := 65821 + 0xFF_FFFF

  /**
   Sizes whose header reads back. Extended types write their type byte last, so
   past 28 it must coincide with the size bytes it is mistaken for.
   */
  predicate HeaderExact(kind: nat, size: nat) {
    if kind < 8 then size <= MAX_SIZE
    else
      || size < 29
      || size == 29 + (kind - 7)
      || size == 285 + 257 * (kind - 7)
      || size == 65821 + 65793 * (kind - 7)
  }

  ghost predicate Holds(d: seq<byte>, pos: nat, s: seq<byte>) {
    pos + |s| <= |d| && forall i | 0 <= i < |s| :: d[pos + i] == s[i]
  }

  /** A header is found up to `next`, and is the intended one exactly for exact sizes. */
  ghost predicate HeadFound(d: seq<byte>, pos: nat, kind: nat, size: nat, next: nat) {
    && ReadHead(d, pos).Some?
    && ReadHead(d, pos).value.next == next
    && (kind < 8 ==> ReadHead(d, pos).value.kind == kind)
    && (ReadHead(d, pos).value.kind == kind && ReadHead(d, pos).value.size == size <==> HeaderExact(kind, size))
  }

  lemma HeaderForm0(d: seq<byte>, pos: nat, kind: nat, size: nat)
    requires 2 <= kind < 16 && size % TWO32 < 29 && Holds(d, pos, Header(kind, size))
    ensures HeadFound(d, pos, kind, size, pos + |Header(kind, size)|)
  {
    assert d[pos] == Header(kind, size)[0];
    if kind >= 8 { assert d[pos + 1] == Header(kind, size)[1]; }
  }

  lemma HeaderForm1(d: seq<byte>, pos: nat, kind: nat, size: nat)
    requires 2 <= kind < 16 && 29 <= size % TWO32 < 285 && Holds(d, pos, Header(kind, size))
    ensures HeadFound(d, pos, kind, size, pos + |Header(kind, size)|)
  {
    var hd := Header(kind, size);
    assert d[pos] == hd[0] && d[pos + 1] == hd[1];
    if kind >= 8 { assert d[pos + 2] == hd[2]; }
  }

  lemma SmallSize(size: nat)
    ensures size < TWO32 ==> size % TWO32 == size
    ensures size % TWO32 <= size
  {
  }

  /** Two size bytes with the type byte shifted in from the right. */
  lemma Shifted2(size: nat, k: nat, hi: nat, lo: nat)
    requires 1 <= k <= 8 && 285 <= size % TWO32 < 65821
    requires hi == (size % TWO32 - 285) / 256 && lo == (size % TWO32 - 285) % 256
    ensures hi == k && 285 + lo * 256 + k == size <==> size == 285 + 257 * k
  {
    SmallSize(size);
    var x := size % TWO32 - 285;
    assert x == hi * 256 + lo;
  }

  lemma HeaderForm2(d: seq<byte>, pos: nat, kind: nat, size: nat)
    requires 2 <= kind < 16 && 285 <= size % TWO32 < 65821 && Holds(d, pos, Header(kind, size))
    ensures HeadFound(d, pos, kind, size, pos + |Header(kind, size)|)
  {
    var hd := Header(kind, size);
    var hi: nat, lo: nat := hd[1], hd[2];
    SmallSize(size);
    assert d[pos] == hd[0] && d[pos + 1] == hd[1] && d[pos + 2] == hd[2];
    if kind >= 8 {
      assert d[pos + 3] == hd[3];
      assert ReadHead(d, pos) == Some(Head(7 + hi, 285 + lo * 256 + (kind - 7), pos + 4));
      Shifted2(size, kind - 7, hi, lo);
      assert HeaderExact(kind, size) <==> size == 285 + 257 * (kind - 7);
    } else {
      assert ReadHead(d, pos) == Some(Head(kind, size % TWO32, pos + 3));
    }
  }

  lemma Bytes3(rem: nat, a: nat, b: nat, c: nat)
    requires a == rem / 65536 % 256 && b == rem / 256 % 256 && c == rem % 256
    ensures rem < 0x100_0000 ==> rem == a * 65536 + b * 256 + c
    ensures a * 65536 + b * 256 + c < 0x100_0000
  {
  }

  lemma Shifted3(size: nat, k: nat, a: nat, b: nat, c: nat)
    requires 1 <= k <= 8 && 65821 <= size % TWO32
    requires var rem := size % TWO32 - 65821; a == rem / 65536 % 256 && b == rem / 256 % 256 && c == rem % 256
    ensures a == k && 65821 + b * 65536 + c * 256 + k == size <==> size == 65821 + 65793 * k
  {
    SmallSize(size);
    var rem := size % TWO32 - 65821;
    Bytes3(rem, a, b, c);
  }

  lemma HeaderForm3(d: seq<byte>, pos: nat, kind: nat, size: nat)
    requires 2 <= kind < 16 && 65821 <= size % TWO32 && Holds(d, pos, Header(kind, size))
    ensures HeadFound(d, pos, kind, size, pos + |Header(kind, size)|)
  {
    var hd := Header(kind, size);
    var a: nat, b: nat, c: nat := hd[1], hd[2], hd[3];
    SmallSize(size);
    assert d[pos] == hd[0] && d[pos + 1] == hd[1] && d[pos + 2] == hd[2] && d[pos + 3] == hd[3];
    if kind >= 8 {
      assert d[pos + 4] == hd[4];
      assert ReadHead(d, pos) == Some(Head(7 + a, 65821 + b * 65536 + c * 256 + (kind - 7), pos + 5));
      Shifted3(size, kind - 7, a, b, c);
      assert HeaderExact(kind, size) <==> size == 65821 + 65793 * (kind - 7);
    } else {
      Bytes3(size % TWO32 - 65821, a, b, c);
      assert ReadHead(d, pos) == Some(Head(kind, 65821 + a * 65536 + b * 256 + c, pos + 4));
    }
  }

  /** The reader recovers type and size exactly for the sizes of `HeaderExact`. */
  lemma HeaderReads(d: seq<byte>, pos: nat, kind: nat, size: nat)
    requires 2 <= kind < 16 && Holds(d, pos, Header(kind, size))
    ensures HeadFound(d, pos, kind, size, pos + |Header(kind, size)|)
    ensures !IsPointer(d, pos)
  {
    var s := size % TWO32;
    if s < 29 { HeaderForm0(d, pos, kind, size); }
    else if s < 285 { HeaderForm1(d, pos, kind, size); }
    else if s < 65821 { HeaderForm2(d, pos, kind, size); }
    else { HeaderForm3(d, pos, kind, size); }
    assert d[pos] == Header(kind, size)[0];
  }

  /** `first` is a header for `kind` and `size` wherever it stands. */
  ghost predicate Heads(first: seq<byte>, kind: nat, size: nat) {
    first != [] &&
    forall d: seq<byte>, pos: nat | Holds(d, pos, first) ::
      !IsPointer(d, pos) && HeadFound(d, pos, kind, size, pos + |first|)
  }

  lemma HeaderHeads(kind: nat, size: nat)
    requires 2 <= kind < 16
    ensures Heads(Header(kind, size), kind, size)
  {
    forall d: seq<byte>, pos: nat | Holds(d, pos, Header(kind, size))
      ensures !IsPointer(d, pos) && HeadFound(d, pos, kind, size, pos + |Header(kind, size)|)
    {
      HeaderReads(d, pos, kind, size);
    }
  }

  lemma PointerShort(d: seq<byte>, pos: nat, offset: nat)
    requires offset < 526336 && Holds(d, pos, Pointer(offset))
    ensures IsPointer(d, pos)
    ensures ReadPointer(d, pos) == Some(Target(offset, pos + |Pointer(offset)|))
  {
    var p := Pointer(offset);
    assert d[pos] == p[0] && d[pos + 1] == p[1];
    if offset >= 2048 {
      assert d[pos + 2] == p[2];
      Bytes3(offset - 2048, (offset - 2048) / 65536, (offset - 2048) / 256 % 256, (offset - 2048) % 256);
    }
  }

  lemma PointerLong(d: seq<byte>, pos: nat, offset: nat)
    requires 526336 <= offset < TWO32 && Holds(d, pos, Pointer(offset))
    ensures IsPointer(d, pos)
    ensures ReadPointer(d, pos) == Some(Target(offset, pos + |Pointer(offset)|))
  {
    var p := Pointer(offset);
    assert d[pos] == p[0] && d[pos + 1] == p[1] && d[pos + 2] == p[2] && d[pos + 3] == p[3];
    if offset < 134744064 {
      Bytes4(offset - 526336, (offset - 526336) / 16777216);
    } else {
      assert d[pos + 4] == p[4];
      Bytes4(offset, offset / 16777216);
    }
  }

  lemma PointerReads(d: seq<byte>, pos: nat, offset: nat)
    requires offset < TWO32 && Holds(d, pos, Pointer(offset))
    ensures IsPointer(d, pos)
    ensures ReadPointer(d, pos) == Some(Target(offset, pos + |Pointer(offset)|))
  {
    if offset < 526336 { PointerShort(d, pos, offset); } else { PointerLong(d, pos, offset); }
  }

  /** `ptr` points to `offset` wherever it stands. */
  ghost predicate Points(ptr: seq<byte>, offset: nat) {
    ptr != [] &&
    forall d: seq<byte>, pos: nat | Holds(d, pos, ptr) ::
      IsPointer(d, pos) && ReadPointer(d, pos) == Some(Target(offset, pos + |ptr|))
  }

  lemma PointerPoints(offset: nat)
    requires offset < TWO32
    ensures Points(Pointer(offset), offset)
  {
    forall d: seq<byte>, pos: nat | Holds(d, pos, Pointer(offset))
      ensures IsPointer(d, pos) && ReadPointer(d, pos) == Some(Target(offset, pos + |Pointer(offset)|))
    {
      PointerReads(d, pos, offset);
    }
  }

  /** An array of 29 elements is misread: its header claims to be something else. */
  lemma ArrayOf29IsMisread()
    ensures Header(11, 29) == [29, 0, 4]
    ensures ReadHead(Header(11, 29), 0) == Some(Head(7, 33, 3))
    ensures HeaderExact(11, 33) && Header(11, 33) == [29, 4, 4]
  {
  }
}
