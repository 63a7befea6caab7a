/** The frames the agent sends (src/spoa/frame.cpp): sizes computed first, then bytes written. */
module FrameEncoding {
  import opened Bytes
  import opened Varint
  import opened ProtocolIo
  import opened TypedData
  import opened Grammar
  import opened FrameParsing

  const MAX_FRAME_SIZE: nat := 0xFFFF_FFFF
  const FLAGS_FIN: Octets4 := [0, 0, 0, 1]
  const AGENT_HELLO: byte := 0x65
  const AGENT_DISCONNECT: byte := 0x66
  const AGENT_ACK: byte := 0x67
  const ACTION_SET_VAR: byte := 1
  const SET_VAR_ARG_COUNT: byte := 3

  datatype VarScope = Process | Session | Transaction | Request | Response
  datatype AckVar = AckVar(scope: VarScope, name: Text, value: Typed)

  function ScopeByte(scope: VarScope): byte {
    match scope
    case Process => 0
    case Session => 1
    case Transaction => 2
    case Request => 3
    case Response => 4
  }

  // ---------- the wire format ----------

  /** The bytes after the length prefix. */
  function Content(kind: byte, streamId: u64, frameId: u64, body: seq<byte>): seq<byte> {
    [kind] + PayloadWire(FLAGS_FIN, streamId, frameId, body)
  }

  /** The frame length is a 32-bit number. */
  predicate Sendable(streamId: u64, frameId: u64, bodySize: nat) {
    5 + |Encode(streamId)| + |Encode(frameId)| + bodySize <= MAX_FRAME_SIZE
  }

  function FrameWire(kind: byte, streamId: u64, frameId: u64, body: seq<byte>): seq<byte>
    requires Sendable(streamId, frameId, |body|)
  {
    Big32(|Content(kind, streamId, frameId, body)|) + Content(kind, streamId, frameId, body)
  }

  function ActionHead(scope: VarScope): seq<byte> {
    [ACTION_SET_VAR, SET_VAR_ARG_COUNT, ScopeByte(scope)]
  }

  function ActionWire(v: AckVar): seq<byte> {
    ActionHead(v.scope) + ArgWire(Arg(v.name, v.value))
  }

  function AckWire(streamId: u64, frameId: u64, vars: seq<AckVar>): seq<byte>
    requires Sendable(streamId, frameId, |Joined(ActionWire, vars)|)
  {
    FrameWire(AGENT_ACK, streamId, frameId, Joined(ActionWire, vars))
  }

  // ---------- what a receiver makes of it ----------

  /** The length prefix counts exactly the bytes that follow it, and the envelope reads back. */
  lemma FrameReadsBack(kind: byte, streamId: u64, frameId: u64, body: seq<byte>)
    requires Sendable(streamId, frameId, |body|)
    ensures
      var f := FrameWire(kind, streamId, frameId, body);
      && |f| > 5 && BigEndian(f[..4]) == |f| - 4 && f[4] == kind
      && EnvelopeOf(f[5..]) == Some((streamId, frameId, body))
  {
    var payload := PayloadWire(FLAGS_FIN, streamId, frameId, body);
    var size := Big32(|Content(kind, streamId, frameId, body)|);
    assert (size + ([kind] + payload))[..4] == size && (size + ([kind] + payload))[5..] == payload;
    EnvelopeRoundTrip(FLAGS_FIN, streamId, frameId, body);
  }

  function ScopeOf(b: byte): Option<VarScope> {
    if b == 0 then Some(Process)
    else if b == 1 then Some(Session)
    else if b == 2 then Some(Transaction)
    else if b == 3 then Some(Request)
    else if b == 4 then Some(Response)
    else None
  }

  /** A SET-VAR action as the protocol defines it. */
  function ActionVia(p: Parser<Arg>, s: seq<byte>): Option<(AckVar, nat)> {
    if |s| < 3 || s[0] != ACTION_SET_VAR || s[1] != SET_VAR_ARG_COUNT || ScopeOf(s[2]).None? then None
    else match p(s[3..])
      case None => None
      case Some((a, k)) => Some((AckVar(ScopeOf(s[2]).value, a.name, a.value), 3 + k))
  }

  function ActionOf(s: seq<byte>): Option<(AckVar, nat)> {
    ActionVia(ArgOf, s)
  }

  lemma ActionViaInverts(p: Parser<Arg>, w: Arg -> seq<byte>, q: Parser<AckVar>, v: AckVar -> seq<byte>)
    requires Sound(p, 1) && Inverts(p, w)
    requires forall s: seq<byte> :: q(s) == ActionVia(p, s)
    requires forall x: AckVar :: v(x) == ActionHead(x.scope) + w(Arg(x.name, x.value))
    ensures Sound(q, 1) && Inverts(q, v)
  {
    forall x: AckVar, t: seq<byte> ensures q(v(x) + t) == Some((x, |v(x)|)) {
      var a := Arg(x.name, x.value);
      assert p(w(a) + t) == Some((a, |w(a)|));
      ActionViaOne(p, x, w(a), t);
    }
  }

  lemma ActionViaOne(p: Parser<Arg>, x: AckVar, field: seq<byte>, t: seq<byte>)
    requires p(field + t) == Some((Arg(x.name, x.value), |field|))
    ensures ActionVia(p, ActionHead(x.scope) + field + t) == Some((x, |ActionHead(x.scope) + field|))
  {
    Behind(ActionHead(x.scope), field, t);
  }

  /** Every SET-VAR action of an ACK is read back, in order. */
  lemma ActionsRoundTrip(vars: seq<AckVar>)
    ensures Sound(ActionOf, 1) && All(ActionOf, Joined(ActionWire, vars)) == Some(vars)
  {
    ArgSound();
    ArgInverts();
    ActionViaInverts(ArgOf, ArgWire, ActionOf, ActionWire);
    AllRoundTrip(ActionOf, ActionWire, vars);
  }

  // ---------- sizes ----------

  /** `add_size`: fails exactly when the sum exceeds what a length prefix can hold. */
  function AddSize(size: nat, extra: nat): (r: Option<nat>)
    ensures r == if size + extra <= MAX_FRAME_SIZE then Some(size + extra) else None
  {
    if extra > MAX_FRAME_SIZE || size > MAX_FRAME_SIZE - extra then None else Some(size + extra)
  }

  method FieldSize(a: Arg) returns (r: Option<nat>)
    ensures r == if |ArgWire(a)| <= MAX_FRAME_SIZE then Some(|ArgWire(a)|) else None
  {
    var prefix := Varint.EncodedSize(|a.name|);
    var value := TypedData.EncodedSize(a.value);
    r := AddSize(prefix + |a.name|, value);
  }

  method EnvelopeSize(streamId: u64, frameId: u64, bodySize: nat) returns (r: Option<nat>)
    ensures r.None? <==> !Sendable(streamId, frameId, bodySize)
    ensures r.Some? ==> r.value == 5 + |Encode(streamId)| + |Encode(frameId)| + bodySize
  {
    var first := Varint.EncodedSize(streamId);
    var second := Varint.EncodedSize(frameId);
    r := AddSize(1 + |FLAGS_FIN|, first);
    if r.Some? {
      r := AddSize(r.value, second);
    }
    if r.Some? {
      r := AddSize(r.value, bodySize);
    }
  }

  /** `w` is the encoding of a field, known as such only where a field is measured or written. */
  ghost predicate WritesFields(w: Arg -> seq<byte>) {
    forall a: Arg {:trigger ArgWire(a)} :: w(a) == ArgWire(a)
  }

  /** `w` is the encoding of an action, known as such only where an action is measured or written. */
  ghost predicate WritesActions(w: AckVar -> seq<byte>) {
    forall v: AckVar {:trigger ActionWire(v)} :: w(v) == ActionWire(v)
  }

  method AddField(size: nat, a: Arg, ghost w: Arg -> seq<byte>) returns (r: Option<nat>)
    requires WritesFields(w)
    ensures r == if size + |w(a)| <= MAX_FRAME_SIZE then Some(size + |w(a)|) else None
  {
    assert w(a) == ArgWire(a);
    r := FieldSize(a);
    if r.Some? {
      r := AddSize(size, r.value);
    }
  }

  method AddAction(size: nat, v: AckVar, ghost w: AckVar -> seq<byte>) returns (r: Option<nat>)
    requires WritesActions(w)
    ensures r == if size + |w(v)| <= MAX_FRAME_SIZE then Some(size + |w(v)|) else None
  {
    assert w(v) == ActionWire(v);
    r := AddSize(size, 3);
    if r.None? {
      return;
    }
    var field := FieldSize(Arg(v.name, v.value));
    r := if field.None? then None else AddSize(r.value, field.value);
  }

  /** The size of all fields: fails exactly beyond the limit. */
  method FieldsSize(fields: seq<Arg>, ghost w: Arg -> seq<byte>) returns (r: Option<nat>)
    requires WritesFields(w)
    ensures r == if |Joined(w, fields)| <= MAX_FRAME_SIZE then Some(|Joined(w, fields)|) else None
  {
    r := Some(0);
    for k := 0 to |fields|
      invariant r == Some(|Joined(w, fields[..k])|) && |Joined(w, fields[..k])| <= MAX_FRAME_SIZE
    {
      JoinedNext(w, fields, k);
      r := AddField(r.value, fields[k], w);
      if r.None? {
        return;
      }
    }
    assert fields[..|fields|] == fields;
  }

  /** The body part of `ack_frame_size`: fails exactly beyond the limit. */
  method ActionsSize(vars: seq<AckVar>, ghost w: AckVar -> seq<byte>) returns (r: Option<nat>)
    requires WritesActions(w)
    ensures r == if |Joined(w, vars)| <= MAX_FRAME_SIZE then Some(|Joined(w, vars)|) else None
  {
    r := Some(0);
    for k := 0 to |vars|
      invariant r == Some(|Joined(w, vars[..k])|) && |Joined(w, vars[..k])| <= MAX_FRAME_SIZE
    {
      JoinedNext(w, vars, k);
      r := AddAction(r.value, vars[k], w);
      if r.None? {
        return;
      }
    }
    assert vars[..|vars|] == vars;
  }

  // ---------- frames in a vector ----------

  /** `begin_frame`. */
  method BeginFrame(kind: byte, streamId: u64, frameId: u64, bodySize: nat) returns (r: Option<seq<byte>>)
    ensures r.None? <==> !Sendable(streamId, frameId, bodySize)
    ensures r.Some? ==> forall body: seq<byte> | |body| == bodySize :: r.value + body == FrameWire(kind, streamId, frameId, body)
  {
    var size := EnvelopeSize(streamId, frameId, bodySize);
    if size.None? {
      return None;
    }
    var out := Big32(size.value) + [kind] + FLAGS_FIN;
    out := EncodeToVec(out, streamId);
    out := EncodeToVec(out, frameId);
    forall body: seq<byte> | |body| == bodySize ensures out + body == FrameWire(kind, streamId, frameId, body) {
      FramePieces(Big32(size.value), kind, FLAGS_FIN, Encode(streamId), Encode(frameId), body);
    }
    r := Some(out);
  }

  lemma FramePieces(size: seq<byte>, kind: byte, flags: seq<byte>, first: seq<byte>, second: seq<byte>, body: seq<byte>)
    ensures size + [kind] + flags + first + second + body == size + ([kind] + (flags + (first + (second + body))))
  {
  }

  /**
   `encode_fields`: the bytes of the frame, or a failure exactly when its length does not fit the
   prefix; the size is known before a byte is written.
   */
  method EncodeFields(kind: byte, streamId: u64, frameId: u64, fields: seq<Arg>) returns (r: Option<seq<byte>>)
    ensures r.None? <==> !Sendable(streamId, frameId, |Joined(ArgWire, fields)|)
    ensures r.Some? ==> r.value == FrameWire(kind, streamId, frameId, Joined(ArgWire, fields))
  {
    var bodySize := FieldsSize(fields, ArgWire);
    if bodySize.None? {
      return None;
    }
    r := BeginFrame(kind, streamId, frameId, bodySize.value);
    if r.None? {
      return;
    }
    var out := AppendFields(r.value, fields, ArgWire);
    r := Some(out);
  }

  method AppendFields(head: seq<byte>, fields: seq<Arg>, ghost w: Arg -> seq<byte>) returns (out: seq<byte>)
    requires WritesFields(w)
    ensures out == head + Joined(w, fields)
  {
    out := head;
    for k := 0 to |fields|
      invariant out == head + Joined(w, fields[..k])
    {
      JoinedNext(w, fields, k);
      Behind(head, Joined(w, fields[..k]), w(fields[k]));
      out := AppendField(out, fields[k], w);
    }
    assert fields[..|fields|] == fields;
  }

  method AppendField(out: seq<byte>, a: Arg, ghost w: Arg -> seq<byte>) returns (out': seq<byte>)
    requires WritesFields(w)
    ensures out' == out + w(a)
  {
    out' := EncodeToVec(out, |a.name|);
    out' := out' + a.name;
    out' := EncodeAppend(out', a.value);
    FieldPieces(out, Encode(|a.name|), a.name, Wire(a.value));
    assert w(a) == ArgWire(a);
  }

  lemma FieldPieces(out: seq<byte>, size: seq<byte>, name: seq<byte>, value: seq<byte>)
    ensures out + size + name + value == out + (size + name + value)
  {
  }

  function HelloFields(maxFrameSize: u32): seq<Arg> {
    [Arg(Ascii("version"), Str(Ascii("2.0"))),
     Arg(Ascii("max-frame-size"), UInt32(maxFrameSize)),
     Arg(Ascii("capabilities"), Str(Ascii("pipelining")))]
  }

  function DisconnectFields(statusCode: u32, message: Text): seq<Arg> {
    [Arg(Ascii("status-code"), UInt32(statusCode)), Arg(Ascii("message"), Str(message))]
  }

  lemma ArgBound(a: Arg)
    ensures |ArgWire(a)| <= 37 + |a.name| + (if a.value.Str? then |a.value.str| else if a.value.Binary? then |a.value.bin| else 0)
  {
    EncodedSizeBound(|a.name|);
    match a.value
    case Null =>
    case Boolean(_) =>
    case Int32(i) => EncodedSizeBound(Word(i));
    case UInt32(u) => EncodedSizeBound(u);
    case Int64(i) => EncodedSizeBound(Word(i));
    case UInt64(u) => EncodedSizeBound(u);
    case IPv4(_) =>
    case IPv6(_) =>
    case Str(t) => EncodedSizeBound(|t|);
    case Binary(t) => EncodedSizeBound(|t|);
  }

  /** A few short fields always fit a frame. */
  lemma {:induction false} FieldsBound(fields: seq<Arg>, most: nat)
    requires forall k | 0 <= k < |fields| :: |ArgWire(fields[k])| <= most
    ensures |Joined(ArgWire, fields)| <= most * |fields|
  {
    if fields != [] {
      FieldsBound(fields[1..], most);
      assert most * |fields| == most + most * (|fields| - 1);
    }
  }

  lemma HelloFits(streamId: u64, frameId: u64, maxFrameSize: u32)
    ensures Sendable(streamId, frameId, |Joined(ArgWire, HelloFields(maxFrameSize))|)
  {
    EncodedSizeBound(streamId);
    EncodedSizeBound(frameId);
    var fields := HelloFields(maxFrameSize);
    forall k | 0 <= k < |fields| ensures |ArgWire(fields[k])| <= 100 { ArgBound(fields[k]); }
    FieldsBound(fields, 100);
  }

  lemma DisconnectFits(streamId: u64, frameId: u64, statusCode: u32, message: Text)
    requires |message| <= 1000
    ensures Sendable(streamId, frameId, |Joined(ArgWire, DisconnectFields(statusCode, message))|)
  {
    EncodedSizeBound(streamId);
    EncodedSizeBound(frameId);
    var fields := DisconnectFields(statusCode, message);
    forall k | 0 <= k < |fields| ensures |ArgWire(fields[k])| <= 2000 { ArgBound(fields[k]); }
    FieldsBound(fields, 2000);
  }

  /** `encode_agent_hello`: never too long, and the receiver reads back the three fields. */
  method EncodeAgentHello(streamId: u64, frameId: u64, maxFrameSize: u32) returns (out: seq<byte>)
    ensures Sendable(streamId, frameId, |Joined(ArgWire, HelloFields(maxFrameSize))|)
    ensures out == FrameWire(AGENT_HELLO, streamId, frameId, Joined(ArgWire, HelloFields(maxFrameSize)))
  {
    HelloFits(streamId, frameId, maxFrameSize);
    var r := EncodeFields(AGENT_HELLO, streamId, frameId, HelloFields(maxFrameSize));
    out := r.value;
  }

  /** `encode_agent_disconnect`. */
  method EncodeAgentDisconnect(streamId: u64, frameId: u64, statusCode: u32, message: Text) returns (r: Option<seq<byte>>)
    ensures r.None? <==> !Sendable(streamId, frameId, |Joined(ArgWire, DisconnectFields(statusCode, message))|)
    ensures r.Some? ==>
      r.value == FrameWire(AGENT_DISCONNECT, streamId, frameId, Joined(ArgWire, DisconnectFields(statusCode, message)))
  {
    r := EncodeFields(AGENT_DISCONNECT, streamId, frameId, DisconnectFields(statusCode, message));
  }

  /** Every frame made of fields reads back: length, type, ids and fields. */
  lemma FieldFrameReadsBack(kind: byte, streamId: u64, frameId: u64, fields: seq<Arg>)
    requires Sendable(streamId, frameId, |Joined(ArgWire, fields)|)
    ensures
      var f := FrameWire(kind, streamId, frameId, Joined(ArgWire, fields));
      && |f| > 5 && BigEndian(f[..4]) == |f| - 4 && f[4] == kind
      && EnvelopeOf(f[5..]).Some? && EnvelopeOf(f[5..]).value.0 == streamId && EnvelopeOf(f[5..]).value.1 == frameId
      && FieldsOf(EnvelopeOf(f[5..]).value.2) == Some(fields)
  {
    FrameReadsBack(kind, streamId, frameId, Joined(ArgWire, fields));
    FieldsRoundTrip(fields);
  }

  // ---------- the ACK in a fixed buffer ----------

  /** The buffer, `was` before, holds `done` at its head and is otherwise as it was. */
  ghost predicate Progress(now: seq<byte>, was: seq<byte>, pos: nat, done: seq<byte>) {
    pos == |done| <= |now| == |was| && now[..pos] == done && now[pos..] == was[pos..]
  }

  lemma ProgressNext(was: seq<byte>, mid: seq<byte>, a: nat, done: seq<byte>, now: seq<byte>, b: nat, w: seq<byte>)
    requires Progress(mid, was, a, done) && |now| == |mid| && b == a + |w| <= |now|
    requires now[..b] == mid[..a] + w && now[b..] == mid[b..]
    ensures Progress(now, was, b, done + w)
  {
    assert mid[b..] == mid[a..][|w|..];
    assert was[b..] == was[a..][|w|..];
  }

  method PutBytes(writer: BufferWriter, w: seq<byte>, ghost was: seq<byte>, ghost done: seq<byte>)
    requires writer.Valid() && Progress(writer.buffer[..], was, writer.pos, done)
    requires |done| + |w| <= writer.buffer.Length
    modifies writer, writer.buffer
    ensures writer.Valid() && Progress(writer.buffer[..], was, writer.pos, done + w)
  {
    ghost var mid, a := writer.buffer[..], writer.pos;
    var ok := writer.WriteBytes(w);
    assert ok;
    ProgressNext(was, mid, a, done, writer.buffer[..], writer.pos, w);
  }

  method PutVarint(writer: BufferWriter, n: u64, ghost was: seq<byte>, ghost done: seq<byte>)
    requires writer.Valid() && Progress(writer.buffer[..], was, writer.pos, done)
    requires |done| + |Encode(n)| <= writer.buffer.Length
    modifies writer, writer.buffer
    ensures writer.Valid() && Progress(writer.buffer[..], was, writer.pos, done + Encode(n))
  {
    ghost var mid, a := writer.buffer[..], writer.pos;
    var ok := writer.WriteVarint(n);
    assert ok;
    ProgressNext(was, mid, a, done, writer.buffer[..], writer.pos, Encode(n));
  }

  method PutField(writer: BufferWriter, f: Arg, ghost was: seq<byte>, ghost done: seq<byte>)
    requires writer.Valid() && Progress(writer.buffer[..], was, writer.pos, done)
    requires |done| + |ArgWire(f)| <= writer.buffer.Length
    modifies writer, writer.buffer
    ensures writer.Valid() && Progress(writer.buffer[..], was, writer.pos, done + ArgWire(f))
  {
    ghost var name, value := Prefixed(f.name), Wire(f.value);
    ghost var mid, a := writer.buffer[..], writer.pos;
    var ok := writer.WriteLengthPrefixed(f.name);
    assert ok;
    ProgressNext(was, mid, a, done, writer.buffer[..], writer.pos, name);
    mid, a := writer.buffer[..], writer.pos;
    ok := EncodeTo(writer, f.value);
    assert ok;
    ProgressNext(was, mid, a, done + name, writer.buffer[..], writer.pos, value);
    Behind(done, name, value);
  }

  method PutEnvelope(writer: BufferWriter, size: u32, streamId: u64, frameId: u64, ghost was: seq<byte>)
    requires writer.Valid() && writer.pos == 0 && was == writer.buffer[..]
    requires 9 + |Encode(streamId)| + |Encode(frameId)| <= writer.buffer.Length
    modifies writer, writer.buffer
    ensures writer.Valid()
    ensures Progress(writer.buffer[..], was, writer.pos,
                     Big32(size) + [AGENT_ACK] + FLAGS_FIN + Encode(streamId) + Encode(frameId))
  {
    var ok := writer.WriteU32Be(size);
    assert ok;
    ghost var done := Big32(size);
    assert Progress(writer.buffer[..], was, writer.pos, done);
    PutBytes(writer, [AGENT_ACK], was, done);
    PutBytes(writer, FLAGS_FIN, was, done + [AGENT_ACK]);
    PutVarint(writer, streamId, was, done + [AGENT_ACK] + FLAGS_FIN);
    PutVarint(writer, frameId, was, done + [AGENT_ACK] + FLAGS_FIN + Encode(streamId));
  }

  method PutActions(writer: BufferWriter, vars: seq<AckVar>, ghost was: seq<byte>, ghost head: seq<byte>,
                    ghost w: AckVar -> seq<byte>)
    requires WritesActions(w)
    requires writer.Valid() && Progress(writer.buffer[..], was, writer.pos, head)
    requires |head| + |Joined(w, vars)| <= writer.buffer.Length
    modifies writer, writer.buffer
    ensures writer.Valid() && Progress(writer.buffer[..], was, writer.pos, head + Joined(w, vars))
  {
    assert head + Joined(w, vars[..0]) == head;
    for k := 0 to |vars|
      invariant writer.Valid()
      invariant Progress(writer.buffer[..], was, writer.pos, head + Joined(w, vars[..k]))
    {
      JoinedNext(w, vars, k);
      Behind(head, Joined(w, vars[..k]), w(vars[k]));
      PutAction(writer, vars[k], was, head + Joined(w, vars[..k]), w);
    }
    assert vars[..|vars|] == vars;
  }

  method PutAction(writer: BufferWriter, v: AckVar, ghost was: seq<byte>, ghost done: seq<byte>,
                   ghost w: AckVar -> seq<byte>)
    requires WritesActions(w)
    requires writer.Valid() && Progress(writer.buffer[..], was, writer.pos, done)
    requires |done| + |w(v)| <= writer.buffer.Length
    modifies writer, writer.buffer
    ensures writer.Valid() && Progress(writer.buffer[..], was, writer.pos, done + w(v))
  {
    ghost var field := ArgWire(Arg(v.name, v.value));
    assert w(v) == ActionWire(v) == ActionHead(v.scope) + field;
    ActionPieces(done, ACTION_SET_VAR, SET_VAR_ARG_COUNT, ScopeByte(v.scope), field);
    PutBytes(writer, [ACTION_SET_VAR], was, done);
    PutBytes(writer, [SET_VAR_ARG_COUNT], was, done + [ACTION_SET_VAR]);
    PutBytes(writer, [ScopeByte(v.scope)], was, done + [ACTION_SET_VAR] + [SET_VAR_ARG_COUNT]);
    PutField(writer, Arg(v.name, v.value), was, done + ActionHead(v.scope));
  }

  lemma ActionPieces(done: seq<byte>, a: byte, b: byte, c: byte, field: seq<byte>)
    ensures done + [a] + [b] + [c] == done + [a, b, c]
    ensures done + [a, b, c] + field == done + ([a, b, c] + field)
  {
  }

  /**
   `encode_agent_ack_into`: throws exactly when no ACK of that length can exist, answers 0 and
   leaves the buffer alone exactly when the ACK does not fit, and otherwise writes the ACK at the
   head of the buffer and nothing else. No write of the buffer cursor fails.
   */
  method EncodeAckInto(out: array<byte>, streamId: u64, frameId: u64, vars: seq<AckVar>) returns (r: Option<nat>)
    modifies out
    ensures r.None? <==> !Sendable(streamId, frameId, |Joined(ActionWire, vars)|)
    ensures r.None? ==> out[..] == old(out[..])
    ensures r.Some? ==> (r.value == 0 <==> out.Length < |AckWire(streamId, frameId, vars)|)
    ensures r.Some? && r.value == 0 ==> out[..] == old(out[..])
    ensures r.Some? && r.value > 0 ==>
      && r.value == |AckWire(streamId, frameId, vars)| <= out.Length
      && out[..r.value] == AckWire(streamId, frameId, vars) && out[r.value..] == old(out[..])[r.value..]
  {
    var bodySize := ActionsSize(vars, ActionWire);
    if bodySize.None? {
      return None;
    }
    var size := EnvelopeSize(streamId, frameId, bodySize.value);
    if size.None? {
      return None;
    }
    if out.Length < 4 + size.value {
      return Some(0);
    }
    ghost var was, body := out[..], Joined(ActionWire, vars);
    var writer := new BufferWriter(out);
    PutEnvelope(writer, size.value, streamId, frameId, was);
    ghost var head := Big32(size.value) + [AGENT_ACK] + FLAGS_FIN + Encode(streamId) + Encode(frameId);
    PutActions(writer, vars, was, head, ActionWire);
    FramePieces(Big32(size.value), AGENT_ACK, FLAGS_FIN, Encode(streamId), Encode(frameId), body);
    r := Some(writer.pos);
  }

  /** `encode_agent_ack`: the same bytes in a vector of exactly the right length. */
  method EncodeAck(streamId: u64, frameId: u64, vars: seq<AckVar>) returns (r: Option<seq<byte>>)
    ensures r.None? <==> !Sendable(streamId, frameId, |Joined(ActionWire, vars)|)
    ensures r.Some? ==> r.value == AckWire(streamId, frameId, vars)
  {
    var bodySize := ActionsSize(vars, ActionWire);
    if bodySize.None? {
      return None;
    }
    var size := EnvelopeSize(streamId, frameId, bodySize.value);
    if size.None? {
      return None;
    }
    var out := new byte[4 + size.value];
    var written := EncodeAckInto(out, streamId, frameId, vars);
    r := Some(out[..written.value]);
  }

  /** The single variable the agent sets. */
  function IpBad(value: bool): seq<AckVar> {
    [AckVar(Session, Ascii("ip_bad"), Boolean(value))]
  }

  /** For all ids the agent's ACK fits its 64-byte buffer. */
  lemma IpBadFits(streamId: u64, frameId: u64, value: bool)
    ensures Sendable(streamId, frameId, |Joined(ActionWire, IpBad(value))|)
    ensures 0 < |AckWire(streamId, frameId, IpBad(value))| <= 40
  {
    EncodedSizeBound(streamId);
    EncodedSizeBound(frameId);
    var v := IpBad(value)[0];
    assert IpBad(value)[1..] == [];
    assert |Prefixed(v.name)| == 7 && |Wire(v.value)| == 1;
    assert |ActionWire(v)| == 11;
    assert |Joined(ActionWire, IpBad(value))| == 11;
  }
}
