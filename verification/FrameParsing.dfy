/** Parsing of the frames HAProxy sends (src/spoa/frame.cpp). */
module FrameParsing {
  import opened Bytes
  import opened Varint
  import opened ProtocolIo
  import opened TypedData
  import opened Grammar

  datatype Arg = Arg(name: Text, value: Typed)

  /** A message carries its argument count in one byte. */
  type Args = s: seq<Arg> | |s| < 256
  datatype Message = Message(name: Text, args: Args)

  datatype InFrame =
    | HaproxyHello(streamId: u64, frameId: u64, engineId: seq<byte>, supportedVersions: seq<byte>,
                   maxFrameSize: u32, healthcheck: bool)
    | HaproxyDisconnect(streamId: u64, frameId: u64, statusCode: u32, message: seq<byte>)
    | Notify(streamId: u64, frameId: u64, messages: seq<Message>)

  const HAPROXY_HELLO: byte := 1
  const HAPROXY_DISCONNECT: byte := 2
  const NOTIFY: byte := 3

  // ---------- the wire format ----------

  function ArgWire(a: Arg): seq<byte> {
    Prefixed(a.name) + Wire(a.value)
  }

  function MessageWire(m: Message): seq<byte> {
    Prefixed(m.name) + ([|m.args|] + Joined(ArgWire, m.args))
  }

  /** What follows the type byte: four flag bytes, the two ids and the body. */
  function PayloadWire(flags: Octets4, streamId: u64, frameId: u64, body: seq<byte>): seq<byte> {
    flags + (Encode(streamId) + (Encode(frameId) + body))
  }

  // ---------- reading ----------

  // The item parsers are parameters below, so that the laws of the grammar need not look into them.

  function ArgVia(q: Parser<Text>, v: Parser<Typed>, s: seq<byte>): Option<(Arg, nat)>
    requires Sound(q, 1)
  {
    match q(s)
    case None => None
    case Some((name, k)) =>
      match v(s[k..])
      case None => None
      case Some((value, j)) => Some((Arg(name, value), k + j))
  }

  /** A message, by the grammar alone: there is no check of the count against the bytes left. */
  function MessageVia(q: Parser<Text>, p: Parser<Arg>, s: seq<byte>): Option<(Message, nat)>
    requires Sound(q, 1) && Sound(p, 1)
  {
    match q(s)
    case None => None
    case Some((name, k)) =>
      if k == |s| then None
      else match Many(p, s[k + 1..], s[k])
        case None => None
        case Some((args, j)) => ManyNeed(p, 1, s[k + 1..], s[k]); Some((Message(name, args), k + 1 + j))
  }

  function ArgOf(s: seq<byte>): Option<(Arg, nat)> {
    TextSound();
    ArgVia(TextOf, ValueOf, s)
  }

  function MessageOf(s: seq<byte>): Option<(Message, nat)> {
    TextSound();
    ArgSound();
    MessageVia(TextOf, ArgOf, s)
  }

  function MessagesOf(s: seq<byte>): Option<seq<Message>> {
    MessageSound();
    All(MessageOf, s)
  }

  function FieldsOf(s: seq<byte>): Option<seq<Arg>> {
    ArgSound();
    All(ArgOf, s)
  }

  /** The ids, and what is left for the body. */
  function EnvelopeOf(s: seq<byte>): Option<(u64, u64, seq<byte>)> {
    if |s| < 4 then None
    else match Value64(s[4..])
      case None => None
      case Some((streamId, k)) =>
        Value64Meaning(s[4..]);
        match Value64(s[4 + k..])
        case None => None
        case Some((frameId, j)) =>
          Value64Meaning(s[4 + k..]);
          Some((streamId, frameId, s[4 + k + j..]))
  }

  /** The last field of the given name and type decides; fields that do not fit are ignored. */
  function LastText(fields: seq<Arg>, key: seq<byte>): seq<byte> {
    if fields == [] then []
    else
      var f := fields[|fields| - 1];
      if f.name == key && f.value.Str? then f.value.str else LastText(fields[..|fields| - 1], key)
  }

  function LastUInt(fields: seq<Arg>, key: seq<byte>): u32 {
    if fields == [] then 0
    else
      var f := fields[|fields| - 1];
      if f.name == key && f.value.UInt32? then f.value.u32 else LastUInt(fields[..|fields| - 1], key)
  }

  function LastBool(fields: seq<Arg>, key: seq<byte>): bool {
    if fields == [] then false
    else
      var f := fields[|fields| - 1];
      if f.name == key && f.value.Boolean? then f.value.boolean else LastBool(fields[..|fields| - 1], key)
  }

  function HelloOf(streamId: u64, frameId: u64, fields: seq<Arg>): InFrame {
    HaproxyHello(streamId, frameId, LastText(fields, Ascii("engine-id")),
                 LastText(fields, Ascii("supported-versions")), LastUInt(fields, Ascii("max-frame-size")),
                 LastBool(fields, Ascii("healthcheck")))
  }

  function DisconnectOf(streamId: u64, frameId: u64, fields: seq<Arg>): InFrame {
    HaproxyDisconnect(streamId, frameId, LastUInt(fields, Ascii("status-code")),
                      LastText(fields, Ascii("message")))
  }

  function BodyFrame(kind: byte, streamId: u64, frameId: u64, body: seq<byte>): Option<InFrame> {
    if kind == HAPROXY_HELLO then
      match FieldsOf(body) {
        case None => None
        case Some(fields) => Some(HelloOf(streamId, frameId, fields))
      }
    else if kind == HAPROXY_DISCONNECT then
      match FieldsOf(body) {
        case None => None
        case Some(fields) => Some(DisconnectOf(streamId, frameId, fields))
      }
    else if kind == NOTIFY then
      match MessagesOf(body) {
        case None => None
        case Some(ms) => Some(Notify(streamId, frameId, ms))
      }
    else None
  }

  /** The frame a payload of the given type spells, if any. */
  function FrameOf(kind: byte, payload: seq<byte>): Option<InFrame> {
    match EnvelopeOf(payload)
    case None => None
    case Some((streamId, frameId, body)) => BodyFrame(kind, streamId, frameId, body)
  }

  // ---------- laws of the grammar ----------

  lemma TextSound()
    ensures Sound(TextOf, 1)
  {
    forall s: seq<byte> | TextOf(s).Some? ensures 1 <= TextOf(s).value.1 <= |s| {
      TextMeaning(s);
    }
  }

  lemma ValueSound()
    ensures Sound(ValueOf, 1)
  {
    forall s: seq<byte> | ValueOf(s).Some? ensures 1 <= ValueOf(s).value.1 <= |s| {
      ValueLocal(s, s);
    }
  }

  /** An argument takes at least two bytes. */
  lemma ArgViaSound(q: Parser<Text>, v: Parser<Typed>, p: Parser<Arg>)
    requires Sound(q, 1) && Sound(v, 1) && forall s: seq<byte> :: p(s) == ArgVia(q, v, s)
    ensures Sound(p, 2) && Sound(p, 1)
  {
  }

  lemma ArgSound()
    ensures Sound(ArgOf, 2) && Sound(ArgOf, 1)
  {
    TextSound();
    ValueSound();
    ArgViaSound(TextOf, ValueOf, ArgOf);
  }

  lemma MessageViaSound(q: Parser<Text>, p: Parser<Arg>, m: Parser<Message>)
    requires Sound(q, 1) && Sound(p, 1) && forall s: seq<byte> :: m(s) == MessageVia(q, p, s)
    ensures Sound(m, 1)
  {
    forall s: seq<byte> | m(s).Some? ensures 1 <= m(s).value.1 <= |s| {
      var k := q(s).value.1;
      ManyNeed(p, 1, s[k + 1..], s[k]);
    }
  }

  lemma MessageSound()
    ensures Sound(MessageOf, 1)
  {
    TextSound();
    ArgSound();
    MessageViaSound(TextOf, ArgOf, MessageOf);
  }

  lemma TextInverts()
    ensures Inverts(TextOf, Prefixed)
  {
    forall t: Text, rest: seq<byte> ensures TextOf(Prefixed(t) + rest) == Some((t, |Prefixed(t)|)) {
      TextIff(Prefixed(t) + rest, t);
    }
  }

  lemma ValueInverts()
    ensures Inverts(ValueOf, Wire)
  {
    forall v: Typed, rest: seq<byte> ensures ValueOf(Wire(v) + rest) == Some((v, |Wire(v)|)) {
      RoundTrip(v, rest);
    }
  }

  lemma ArgViaInverts(q: Parser<Text>, wq: Text -> seq<byte>, v: Parser<Typed>, wv: Typed -> seq<byte>,
                      p: Parser<Arg>, w: Arg -> seq<byte>)
    requires Sound(q, 1) && Inverts(q, wq) && Inverts(v, wv)
    requires forall s: seq<byte> :: p(s) == ArgVia(q, v, s)
    requires forall a: Arg :: w(a) == wq(a.name) + wv(a.value)
    ensures Inverts(p, w)
  {
    forall a: Arg, t: seq<byte> ensures p(w(a) + t) == Some((a, |w(a)|)) {
      assert q(wq(a.name) + (wv(a.value) + t)) == Some((a.name, |wq(a.name)|));
      assert v(wv(a.value) + t) == Some((a.value, |wv(a.value)|));
      ArgViaOne(q, v, a, wq(a.name), wv(a.value), t);
    }
  }

  lemma ArgViaOne(q: Parser<Text>, v: Parser<Typed>, a: Arg, name: seq<byte>, value: seq<byte>, t: seq<byte>)
    requires Sound(q, 1) && q(name + (value + t)) == Some((a.name, |name|)) && v(value + t) == Some((a.value, |value|))
    ensures ArgVia(q, v, name + value + t) == Some((a, |name + value|))
  {
    Behind(name, value, t);
  }

  lemma ArgInverts()
    ensures Inverts(ArgOf, ArgWire)
  {
    TextSound();
    TextInverts();
    ValueInverts();
    ArgViaInverts(TextOf, Prefixed, ValueOf, Wire, ArgOf, ArgWire);
  }

  lemma MessageSlices(name: seq<byte>, count: byte, args: seq<byte>, t: seq<byte>, s: seq<byte>)
    requires s == name + ([count] + args) + t
    ensures s == name + ([count] + (args + t)) && s[|name|] == count
    ensures s[|name| + 1..] == args + t
  {
  }

  lemma MessageViaCases(q: Parser<Text>, p: Parser<Arg>, s: seq<byte>, name: Text, k: nat)
    requires Sound(q, 1) && Sound(p, 1) && q(s) == Some((name, k)) && k < |s|
    ensures Many(p, s[k + 1..], s[k]).None? ==> MessageVia(q, p, s).None?
    ensures Many(p, s[k + 1..], s[k]).Some? ==>
      var (args, j) := Many(p, s[k + 1..], s[k]).value;
      |args| == s[k] && MessageVia(q, p, s) == Some((Message(name, args), k + 1 + j))
  {
    if Many(p, s[k + 1..], s[k]).Some? {
      ManyNeed(p, 1, s[k + 1..], s[k]);
    }
  }

  lemma MessageViaInverts(q: Parser<Text>, wq: Text -> seq<byte>, p: Parser<Arg>, w: Arg -> seq<byte>,
                          m: Parser<Message>, v: Message -> seq<byte>)
    requires Sound(q, 1) && Inverts(q, wq) && Sound(p, 1) && Inverts(p, w)
    requires forall s: seq<byte> :: m(s) == MessageVia(q, p, s)
    requires forall x: Message :: v(x) == wq(x.name) + ([|x.args|] + Joined(w, x.args))
    ensures Inverts(m, v)
  {
    forall x: Message, t: seq<byte> ensures m(v(x) + t) == Some((x, |v(x)|)) {
      ManyRoundTrip(p, w, x.args, t);
      assert q(wq(x.name) + ([|x.args|] + (Joined(w, x.args) + t))) == Some((x.name, |wq(x.name)|));
      MessageViaOne(q, p, x, wq(x.name), Joined(w, x.args), t);
    }
  }

  lemma MessageViaOne(q: Parser<Text>, p: Parser<Arg>, x: Message, name: seq<byte>, args: seq<byte>, t: seq<byte>)
    requires Sound(q, 1) && q(name + ([|x.args|] + (args + t))) == Some((x.name, |name|))
    requires Sound(p, 1) && Many(p, args + t, |x.args|) == Some((x.args, |args|))
    ensures MessageVia(q, p, name + ([|x.args|] + args) + t) == Some((x, |name + ([|x.args|] + args)|))
  {
    var s := name + ([|x.args|] + args) + t;
    MessageSlices(name, |x.args|, args, t, s);
    MessageViaCases(q, p, s, x.name, |name|);
  }

  lemma MessageInverts()
    ensures Inverts(MessageOf, MessageWire)
  {
    TextSound();
    TextInverts();
    ArgSound();
    ArgInverts();
    MessageViaInverts(TextOf, Prefixed, ArgOf, ArgWire, MessageOf, MessageWire);
  }

  /** Every list of messages is read back from its serialization. */
  lemma MessagesRoundTrip(ms: seq<Message>)
    ensures MessagesOf(Joined(MessageWire, ms)) == Some(ms)
  {
    MessageSound();
    MessageInverts();
    AllRoundTrip(MessageOf, MessageWire, ms);
  }

  lemma FieldsRoundTrip(fields: seq<Arg>)
    ensures FieldsOf(Joined(ArgWire, fields)) == Some(fields)
  {
    ArgSound();
    ArgInverts();
    AllRoundTrip(ArgOf, ArgWire, fields);
  }

  lemma EnvelopeRoundTrip(flags: Octets4, streamId: u64, frameId: u64, body: seq<byte>)
    ensures EnvelopeOf(PayloadWire(flags, streamId, frameId, body)) == Some((streamId, frameId, body))
  {
    Value64OfEncode(streamId, Encode(frameId) + body);
    Value64OfEncode(frameId, body);
    EnvelopeCompose(flags, Encode(streamId), streamId, Encode(frameId), frameId, body);
  }

  lemma EnvelopeCompose(flags: Octets4, first: seq<byte>, streamId: u64, second: seq<byte>, frameId: u64, body: seq<byte>)
    requires Value64(first + (second + body)) == Some((streamId, |first|))
    requires Value64(second + body) == Some((frameId, |second|))
    ensures EnvelopeOf(flags + (first + (second + body))) == Some((streamId, frameId, body))
  {
    var s := flags + (first + (second + body));
    var k, j := |first|, |second|;
    assert s[4..] == first + (second + body);
    assert s[4 + k..] == s[4..][k..] == second + body;
    assert s[4 + k + j..] == s[4 + k..][j..] == body;
  }

  /** Parsing inverts serialization, for every NOTIFY frame and every flags. */
  lemma NotifyRoundTrip(flags: Octets4, streamId: u64, frameId: u64, ms: seq<Message>)
    ensures FrameOf(NOTIFY, PayloadWire(flags, streamId, frameId, Joined(MessageWire, ms)))
         == Some(Notify(streamId, frameId, ms))
  {
    EnvelopeRoundTrip(flags, streamId, frameId, Joined(MessageWire, ms));
    MessagesRoundTrip(ms);
  }

  /** Whatever was parsed as a NOTIFY, its serialization parses to the same frame. */
  lemma ParsedNotifyIsStable(payload: seq<byte>, flags: Octets4)
    requires FrameOf(NOTIFY, payload).Some?
    ensures FrameOf(NOTIFY, payload).value.Notify?
    ensures
      var f := FrameOf(NOTIFY, payload).value;
      FrameOf(NOTIFY, PayloadWire(flags, f.streamId, f.frameId, Joined(MessageWire, f.messages))) == Some(f)
  {
    var f := FrameOf(NOTIFY, payload).value;
    NotifyRoundTrip(flags, f.streamId, f.frameId, f.messages);
  }

  /** Hello and disconnect frames: the fields are read back, in order. */
  lemma FieldFramesRoundTrip(flags: Octets4, streamId: u64, frameId: u64, fields: seq<Arg>)
    ensures FrameOf(HAPROXY_HELLO, PayloadWire(flags, streamId, frameId, Joined(ArgWire, fields)))
         == Some(HelloOf(streamId, frameId, fields))
    ensures FrameOf(HAPROXY_DISCONNECT, PayloadWire(flags, streamId, frameId, Joined(ArgWire, fields)))
         == Some(DisconnectOf(streamId, frameId, fields))
  {
    EnvelopeRoundTrip(flags, streamId, frameId, Joined(ArgWire, fields));
    FieldsRoundTrip(fields);
  }

  // ---------- the code ----------

  /** `p` is the argument parser, known as such only where an argument is read. */
  ghost predicate ReadsArgs(p: Parser<Arg>) {
    Sound(p, 2) && Sound(p, 1) && forall s: seq<byte> {:trigger ArgOf(s)} :: p(s) == ArgOf(s)
  }

  ghost predicate ReadsTexts(q: Parser<Text>) {
    Sound(q, 1) && forall s: seq<byte> {:trigger TextOf(s)} :: q(s) == TextOf(s)
  }

  ghost predicate ReadsMessages(q: Parser<Message>) {
    Sound(q, 1) && forall s: seq<byte> {:trigger MessageOf(s)} :: q(s) == MessageOf(s)
  }

  ghost predicate ReadsValues(v: Parser<Typed>) {
    forall s: seq<byte> {:trigger ValueOf(s)} :: v(s) == ValueOf(s)
  }

  method ReadArgVia(reader: Reader, ghost q: Parser<Text>, ghost v: Parser<Typed>) returns (r: Option<Arg>)
    requires reader.Valid() && ReadsTexts(q) && ReadsValues(v)
    modifies reader
    ensures reader.Valid()
    ensures r.None? <==> ArgVia(q, v, old(reader.Rest())).None?
    ensures r.Some? ==> ArgVia(q, v, old(reader.Rest())) == Some((r.value, reader.pos - old(reader.pos)))
  {
    ghost var rest := reader.Rest();
    var name := ReadName(reader, q);
    if name.None? {
      return None;
    }
    assert reader.Rest() == rest[q(rest).value.1..];
    var value := ReadValue(reader, v);
    r := if value.None? then None else Some(Arg(name.value, value.value));
  }

  method ReadValue(reader: Reader, ghost v: Parser<Typed>) returns (r: Option<Typed>)
    requires reader.Valid() && ReadsValues(v)
    modifies reader
    ensures reader.Valid()
    ensures r.None? <==> v(old(reader.Rest())).None?
    ensures r.Some? ==> v(old(reader.Rest())) == Some((r.value, reader.pos - old(reader.pos)))
  {
    r := DecodeFrom(reader);
  }

  lemma PartParsers(p: Parser<Arg>) returns (q: Parser<Text>, v: Parser<Typed>)
    requires ReadsArgs(p)
    ensures ReadsTexts(q) && ReadsValues(v) && forall s: seq<byte> :: p(s) == ArgVia(q, v, s)
  {
    TextSound();
    q, v := TextOf, ValueOf;
    forall s: seq<byte> ensures p(s) == ArgVia(q, v, s) {
      assert p(s) == ArgOf(s);
    }
  }

  /** `read_arg`. */
  method ReadArg(reader: Reader, ghost p: Parser<Arg>) returns (r: Option<Arg>)
    requires reader.Valid() && ReadsArgs(p)
    modifies reader
    ensures reader.Valid()
    ensures r.None? <==> p(old(reader.Rest())).None?
    ensures r.Some? ==> p(old(reader.Rest())) == Some((r.value, reader.pos - old(reader.pos)))
  {
    ghost var q, v := PartParsers(p);
    r := ReadArgVia(reader, q, v);
  }

  method ReadNextArg(reader: Reader, ghost p: Parser<Arg>, ghost all: Option<(seq<Arg>, nat)>, args: seq<Arg>,
                     ghost start: nat, ghost left: nat)
    returns (r: Option<seq<Arg>>)
    requires reader.Valid() && ReadsArgs(p) && left > 0 && start <= reader.pos
    requires ManyPending(p, all, args, reader.pos - start, reader.Rest(), left)
    modifies reader
    ensures reader.Valid()
    ensures r.None? ==> all.None?
    ensures r.Some? ==> start <= reader.pos && ManyPending(p, all, r.value, reader.pos - start, reader.Rest(), left - 1)
  {
    ghost var rest := reader.Rest();
    ManyPendingStep(p, all, args, reader.pos - start, rest, left);
    var a := ReadArg(reader, p);
    if a.None? {
      return None;
    }
    assert reader.Rest() == rest[p(rest).value.1..];
    r := Some(args + [a.value]);
  }

  method ReadArgs(reader: Reader, count: nat, ghost p: Parser<Arg>)
    returns (r: Option<seq<Arg>>, ghost all: Option<(seq<Arg>, nat)>)
    requires reader.Valid() && ReadsArgs(p)
    modifies reader
    ensures reader.Valid() && all == Many(p, old(reader.Rest()), count)
    ensures r.None? ==> all.None?
    ensures r.Some? ==> all == Some((r.value, reader.pos - old(reader.pos)))
  {
    ghost var start := reader.pos;
    all := Many(p, reader.Rest(), count);
    r := Some([]);
    ManyPendingEnds(p, all, [], 0, reader.Rest(), count);
    for i := 0 to count
      invariant reader.Valid() && start <= reader.pos && r.Some?
      invariant ManyPending(p, all, r.value, reader.pos - start, reader.Rest(), count - i)
    {
      r := ReadNextArg(reader, p, all, r.value, start, count - i);
      if r.None? {
        return;
      }
    }
    ManyPendingEnds(p, all, r.value, reader.pos - start, reader.Rest(), 0);
  }

  /** The arguments of one message, with the early rejection of impossible counts. */
  method ReadCountedArgs(reader: Reader, count: nat, ghost p: Parser<Arg>)
    returns (r: Option<seq<Arg>>, ghost all: Option<(seq<Arg>, nat)>)
    requires reader.Valid() && ReadsArgs(p)
    modifies reader
    ensures reader.Valid() && all == Many(p, old(reader.Rest()), count)
    ensures r.None? ==> all.None?
    ensures r.Some? ==> all == Some((r.value, reader.pos - old(reader.pos))) && |r.value| == count
  {
    var remaining := reader.Remaining();
    if count > remaining / 2 {
      GuardIsInvisible(p, reader.Rest(), count);
      return None, None;
    }
    ghost var rest := reader.Rest();
    r, all := ReadArgs(reader, count, p);
    if r.Some? {
      ManyNeed(p, 1, rest, count);
    }
  }

  /** One turn of the loop of `parse_notify`. */
  method ReadMessageVia(reader: Reader, ghost q: Parser<Text>, ghost p: Parser<Arg>) returns (r: Option<Message>)
    requires reader.Valid() && ReadsTexts(q) && ReadsArgs(p)
    modifies reader
    ensures reader.Valid()
    ensures r.None? <==> MessageVia(q, p, old(reader.Rest())).None?
    ensures r.Some? ==> MessageVia(q, p, old(reader.Rest())) == Some((r.value, reader.pos - old(reader.pos)))
  {
    ghost var rest := reader.Rest();
    var name := ReadName(reader, q);
    if name.None? {
      return None;
    }
    ghost var k := q(rest).value.1;
    assert reader.Rest() == rest[k..];
    var count := reader.ReadByte();
    if count.None? {
      return None;
    }
    assert reader.Rest() == rest[k + 1..] && count.value == rest[k];
    MessageViaCases(q, p, rest, name.value, k);
    ghost var all;
    var args;
    args, all := ReadCountedArgs(reader, count.value, p);
    if args.None? {
      return None;
    }
    r := Some(Message(name.value, args.value));
  }

  method ReadName(reader: Reader, ghost q: Parser<Text>) returns (r: Option<Text>)
    requires reader.Valid() && ReadsTexts(q)
    modifies reader
    ensures reader.Valid()
    ensures r.None? <==> q(old(reader.Rest())).None?
    ensures r.Some? ==> q(old(reader.Rest())) == Some((r.value, reader.pos - old(reader.pos)))
  {
    r := reader.ReadLengthPrefixed();
  }

  /** The early rejection only meets inputs that cannot be parsed anyway. */
  lemma GuardIsInvisible(p: Parser<Arg>, rest: seq<byte>, count: nat)
    requires ReadsArgs(p) && count > |rest| / 2
    ensures Many(p, rest, count).None?
  {
    if Many(p, rest, count).Some? {
      ManyNeed(p, 2, rest, count);
    }
  }

  method ReadMessage(reader: Reader, ghost q: Parser<Message>) returns (r: Option<Message>)
    requires reader.Valid() && ReadsMessages(q)
    modifies reader
    ensures reader.Valid()
    ensures r.None? <==> q(old(reader.Rest())).None?
    ensures r.Some? ==> q(old(reader.Rest())) == Some((r.value, reader.pos - old(reader.pos)))
  {
    TextSound();
    ArgSound();
    assert q(reader.Rest()) == MessageOf(reader.Rest());
    r := ReadMessageVia(reader, TextOf, ArgOf);
  }

  /** The loop of `parse_notify`. */
  method ReadMessages(reader: Reader, ghost q: Parser<Message>) returns (r: Option<seq<Message>>)
    requires reader.Valid() && ReadsMessages(q)
    modifies reader
    ensures reader.Valid()
    ensures r == All(q, old(reader.Rest()))
  {
    ghost var all := All(q, reader.Rest());
    var ms: seq<Message> := [];
    AllPendingEnds(q, all, ms, reader.Rest());
    var remaining := reader.Remaining();
    while remaining != 0
      invariant reader.Valid() && remaining == |reader.Rest()| && AllPending(q, all, ms, reader.Rest())
      decreases remaining
    {
      ghost var rest := reader.Rest();
      AllPendingStep(q, all, ms, rest);
      var m := ReadMessage(reader, q);
      if m.None? {
        return None;
      }
      assert reader.Rest() == rest[q(rest).value.1..];
      ms := ms + [m.value];
      remaining := reader.Remaining();
    }
    assert reader.Rest() == [];
    AllPendingEnds(q, all, ms, []);
    r := Some(ms);
  }

  method ParseNotify(reader: Reader, streamId: u64, frameId: u64) returns (r: Option<InFrame>)
    requires reader.Valid()
    modifies reader
    ensures reader.Valid()
    ensures r == BodyFrame(NOTIFY, streamId, frameId, old(reader.Rest()))
  {
    MessageSound();
    var ms := ReadMessages(reader, MessageOf);
    r := if ms.None? then None else Some(Notify(streamId, frameId, ms.value));
  }

  /** One visit of the hello callback. */
  function SetHello(f: InFrame, key: seq<byte>, value: Typed): InFrame
    requires f.HaproxyHello?
  {
    if key == Ascii("engine-id") && value.Str? then f.(engineId := value.str)
    else if key == Ascii("supported-versions") && value.Str? then f.(supportedVersions := value.str)
    else if key == Ascii("max-frame-size") && value.UInt32? then f.(maxFrameSize := value.u32)
    else if key == Ascii("healthcheck") && value.Boolean? then f.(healthcheck := value.boolean)
    else f
  }

  function SetDisconnect(f: InFrame, key: seq<byte>, value: Typed): InFrame
    requires f.HaproxyDisconnect?
  {
    if key == Ascii("status-code") && value.UInt32? then f.(statusCode := value.u32)
    else if key == Ascii("message") && value.Str? then f.(message := value.str)
    else f
  }

  lemma HelloNext(streamId: u64, frameId: u64, fields: seq<Arg>, a: Arg)
    ensures HelloOf(streamId, frameId, fields + [a]) == SetHello(HelloOf(streamId, frameId, fields), a.name, a.value)
  {
    assert (fields + [a])[..|fields|] == fields;
  }

  lemma DisconnectNext(streamId: u64, frameId: u64, fields: seq<Arg>, a: Arg)
    ensures DisconnectOf(streamId, frameId, fields + [a])
         == SetDisconnect(DisconnectOf(streamId, frameId, fields), a.name, a.value)
  {
    assert (fields + [a])[..|fields|] == fields;
  }

  /** `parse_hello`: visits the fields one by one. */
  method ParseHelloVia(reader: Reader, streamId: u64, frameId: u64, ghost p: Parser<Arg>)
    returns (r: Option<InFrame>, ghost fields: Option<seq<Arg>>)
    requires reader.Valid() && ReadsArgs(p)
    modifies reader
    ensures reader.Valid() && fields == All(p, old(reader.Rest()))
    ensures r == if fields.None? then None else Some(HelloOf(streamId, frameId, fields.value))
  {
    fields := All(p, reader.Rest());
    ghost var done: seq<Arg> := [];
    var frame := HaproxyHello(streamId, frameId, [], [], 0, false);
    AllPendingEnds(p, fields, done, reader.Rest());
    var remaining := reader.Remaining();
    while remaining != 0
      invariant reader.Valid() && remaining == |reader.Rest()| && AllPending(p, fields, done, reader.Rest())
      invariant frame == HelloOf(streamId, frameId, done)
      decreases remaining
    {
      ghost var rest := reader.Rest();
      AllPendingStep(p, fields, done, rest);
      var a := ReadArg(reader, p);
      if a.None? {
        return None, None;
      }
      assert reader.Rest() == rest[p(rest).value.1..];
      HelloNext(streamId, frameId, done, a.value);
      frame := SetHello(frame, a.value.name, a.value.value);
      done := done + [a.value];
      remaining := reader.Remaining();
    }
    assert reader.Rest() == [];
    AllPendingEnds(p, fields, done, []);
    r := Some(frame);
  }

  /** `parse_disconnect`. */
  method ParseDisconnectVia(reader: Reader, streamId: u64, frameId: u64, ghost p: Parser<Arg>)
    returns (r: Option<InFrame>, ghost fields: Option<seq<Arg>>)
    requires reader.Valid() && ReadsArgs(p)
    modifies reader
    ensures reader.Valid() && fields == All(p, old(reader.Rest()))
    ensures r == if fields.None? then None else Some(DisconnectOf(streamId, frameId, fields.value))
  {
    fields := All(p, reader.Rest());
    ghost var done: seq<Arg> := [];
    var frame := HaproxyDisconnect(streamId, frameId, 0, []);
    AllPendingEnds(p, fields, done, reader.Rest());
    var remaining := reader.Remaining();
    while remaining != 0
      invariant reader.Valid() && remaining == |reader.Rest()| && AllPending(p, fields, done, reader.Rest())
      invariant frame == DisconnectOf(streamId, frameId, done)
      decreases remaining
    {
      ghost var rest := reader.Rest();
      AllPendingStep(p, fields, done, rest);
      var a := ReadArg(reader, p);
      if a.None? {
        return None, None;
      }
      assert reader.Rest() == rest[p(rest).value.1..];
      DisconnectNext(streamId, frameId, done, a.value);
      frame := SetDisconnect(frame, a.value.name, a.value.value);
      done := done + [a.value];
      remaining := reader.Remaining();
    }
    assert reader.Rest() == [];
    AllPendingEnds(p, fields, done, []);
    r := Some(frame);
  }

  method ParseHello(reader: Reader, streamId: u64, frameId: u64) returns (r: Option<InFrame>)
    requires reader.Valid()
    modifies reader
    ensures reader.Valid()
    ensures r == BodyFrame(HAPROXY_HELLO, streamId, frameId, old(reader.Rest()))
  {
    ArgSound();
    ghost var fields;
    r, fields := ParseHelloVia(reader, streamId, frameId, ArgOf);
  }

  method ParseDisconnect(reader: Reader, streamId: u64, frameId: u64) returns (r: Option<InFrame>)
    requires reader.Valid()
    modifies reader
    ensures reader.Valid()
    ensures r == BodyFrame(HAPROXY_DISCONNECT, streamId, frameId, old(reader.Rest()))
  {
    ArgSound();
    ghost var fields;
    r, fields := ParseDisconnectVia(reader, streamId, frameId, ArgOf);
  }

  /** `parse`: answers with the frame the payload spells, and fails on everything else. */
  method Parse(kind: byte, payload: seq<byte>) returns (r: Option<InFrame>)
    ensures r == FrameOf(kind, payload)
  {
    var reader := new Reader(payload);
    var flags := reader.ReadBytes(4);
    if flags.None? {
      return None;
    }
    assert reader.Rest() == payload[4..];
    var streamId := reader.ReadVarint();
    if streamId.None? {
      return None;
    }
    assert reader.Rest() == payload[4 + Value64(payload[4..]).value.1..];
    var frameId := reader.ReadVarint();
    if frameId.None? {
      return None;
    }
    assert reader.Rest() == EnvelopeOf(payload).value.2;
    if kind == HAPROXY_HELLO {
      r := ParseHello(reader, streamId.value, frameId.value);
    } else if kind == HAPROXY_DISCONNECT {
      r := ParseDisconnect(reader, streamId.value, frameId.value);
    } else if kind == NOTIFY {
      r := ParseNotify(reader, streamId.value, frameId.value);
    } else {
      r := None;
    }
  }
}
