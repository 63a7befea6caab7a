/** The SPOE wire format byte by byte, for all ids, addresses and texts. */
module FrameBytes {
  import opened Bytes
  import opened Varint
  import opened ProtocolIo
  import opened TypedData
  import opened Grammar
  import opened FrameParsing
  import opened FrameEncoding
  import opened Agent

  // ---------- typed values ----------

  /** The first byte of every type, and what follows it. */
  lemma FlagBytes(b: bool)
    ensures Wire(Null) == [0x00] && Wire(Boolean(b)) == [if b then 0x11 else 0x01]
  {
  }

  lemma SignedBytes(i: i32, j: i64)
    ensures Wire(Int32(i)) == [0x02] + Encode(if i < 0 then i + 0x1_0000_0000_0000_0000 else i)
    ensures Wire(Int64(j)) == [0x04] + Encode(if j < 0 then j + 0x1_0000_0000_0000_0000 else j)
  {
    assert Header(Int32(i)) == 2 && Header(Int64(j)) == 4;
  }

  lemma UnsignedBytes(u: u32, w: u64)
    ensures Wire(UInt32(u)) == [0x03] + Encode(u) && Wire(UInt64(w)) == [0x05] + Encode(w)
  {
    assert Header(UInt32(u)) == 3 && Header(UInt64(w)) == 5;
  }

  lemma AddressBytes(v4: Octets4, v6: Octets16)
    ensures Wire(IPv4(v4)) == [0x06] + v4 && Wire(IPv6(v6)) == [0x07] + v6
  {
    assert Header(IPv4(v4)) == 6 && Header(IPv6(v6)) == 7;
  }

  lemma TextBytes(t: Text)
    ensures Wire(TypedData.Str(t)) == [0x08] + Encode(|t|) + t && Wire(Binary(t)) == [0x09] + Encode(|t|) + t
  {
    assert Header(TypedData.Str(t)) == 8 && Header(Binary(t)) == 9;
  }

  lemma FieldBytes(name: seq<byte>, v: Typed)
    requires |name| < 240
    ensures ArgWire(Arg(name, v)) == [|name|] + name + Wire(v)
  {
  }

  lemma JoinedOne<T>(w: T -> seq<byte>, a: T)
    ensures Joined(w, [a]) == w(a)
  {
    assert [a][1..] == [];
  }

  lemma JoinedPair<T>(w: T -> seq<byte>, a: T, b: T)
    ensures Joined(w, [a, b]) == w(a) + w(b)
  {
    assert [a, b][1..] == [b];
    JoinedOne(w, b);
  }

  lemma JoinedThree<T>(w: T -> seq<byte>, a: T, b: T, c: T)
    ensures Joined(w, [a, b, c]) == w(a) + w(b) + w(c)
  {
    assert [a, b, c][1..] == [b, c];
    JoinedPair(w, b, c);
  }

  // ---------- what the agent sends ----------

  lemma SmallFrame(kind: byte, first: seq<byte>, second: seq<byte>, streamId: u64, frameId: u64, body: seq<byte>)
    requires first == Encode(streamId) && second == Encode(frameId) && 5 + |first| + |second| + |body| < 256
    ensures Sendable(streamId, frameId, |body|)
    ensures FrameWire(kind, streamId, frameId, body)
         == [0, 0, 0, 5 + |first| + |second| + |body|, kind, 0, 0, 0, 1] + first + second + body
  {
    var content := Content(kind, streamId, frameId, body);
    assert content == [kind, 0, 0, 0, 1] + first + second + body;
    assert Big32(|content|) == [0, 0, 0, |content|];
  }

  /** SET-VAR with three arguments, scope session, the name and one byte for the decision. */
  lemma DecisionBytes(ipBad: bool)
    ensures Joined(ActionWire, IpBad(ipBad)) == [1, 3, 1] + ([6] + Ascii("ip_bad") + [if ipBad then 0x11 else 0x01])
  {
    var v := IpBad(ipBad)[0];
    JoinedOne(ActionWire, v);
    FieldBytes(v.name, v.value);
    FlagBytes(ipBad);
    assert v.name == Ascii("ip_bad") && |v.name| == 6;
  }

  /** The ACK: its length, type and flags, the two ids and the one action. */
  lemma AckBytes(bytes: seq<byte>, streamId: u64, frameId: u64, ipBad: bool)
    requires Acknowledges(bytes, streamId, frameId, ipBad)
    ensures
      var first, second := Encode(streamId), Encode(frameId);
      && |first| <= 10 && |second| <= 10
      && bytes == [0, 0, 0, 16 + |first| + |second|, 0x67, 0, 0, 0, 1] + first + second
                  + ([1, 3, 1] + ([6] + Ascii("ip_bad") + [if ipBad then 0x11 else 0x01]))
  {
    EncodedSizeBound(streamId);
    EncodedSizeBound(frameId);
    DecisionBytes(ipBad);
    SmallFrame(0x67, Encode(streamId), Encode(frameId), streamId, frameId, Joined(ActionWire, IpBad(ipBad)));
  }

  lemma ShortTextBytes(name: string, text: string)
    requires |name| < 240 && |text| < 240
    ensures ArgWire(Arg(Ascii(name), TypedData.Str(Ascii(text)))) == [|name|] + Ascii(name) + [0x08, |text|] + Ascii(text)
  {
    FieldBytes(Ascii(name), TypedData.Str(Ascii(text)));
    TextBytes(Ascii(text));
  }

  /** The disconnect that answers an unsupported argument: status 14 and its reason. */
  lemma RefusalBytes(bytes: seq<byte>)
    requires Refusal(bytes)
    ensures bytes == [0, 0, 0, 69, 0x66, 0, 0, 0, 1, 0, 0] + ([11] + Ascii("status-code") + [0x03, 14]
                     + ([7] + Ascii("message") + [0x08, 38] + Ascii("agent does not implement argument type")))
  {
    var code, text := Arg(Ascii("status-code"), UInt32(14)), Arg(Ascii("message"), TypedData.Str(RefusalText()));
    JoinedPair(ArgWire, code, text);
    FieldBytes(code.name, code.value);
    assert ArgWire(code) == [11] + Ascii("status-code") + [0x03, 14];
    ShortTextBytes("message", "agent does not implement argument type");
    SmallFrame(0x66, [0], [0], 0, 0, ArgWire(code) + ArgWire(text));
  }

  lemma SizeFieldBytes(maxFrameSize: u32)
    ensures ArgWire(Arg(Ascii("max-frame-size"), UInt32(maxFrameSize)))
         == [14] + Ascii("max-frame-size") + [0x03] + Encode(maxFrameSize)
  {
    FieldBytes(Ascii("max-frame-size"), UInt32(maxFrameSize));
    UnsignedBytes(maxFrameSize, 0);
  }

  /** The agent's hello: version, the frame size it was offered, and pipelining. */
  lemma GreetingBytes(bytes: seq<byte>, streamId: u64, frameId: u64, maxFrameSize: u32)
    requires Greets(bytes, streamId, frameId, maxFrameSize)
    ensures
      var first, second, most := Encode(streamId), Encode(frameId), Encode(maxFrameSize);
      && |first| <= 10 && |second| <= 10 && |most| <= 10
      && bytes == [0, 0, 0, 59 + |first| + |second| + |most|, 0x65, 0, 0, 0, 1] + first + second
                  + ([7] + Ascii("version") + [0x08, 3] + Ascii("2.0")
                     + ([14] + Ascii("max-frame-size") + [0x03] + most)
                     + ([12] + Ascii("capabilities") + [0x08, 10] + Ascii("pipelining")))
  {
    EncodedSizeBound(streamId);
    EncodedSizeBound(frameId);
    EncodedSizeBound(maxFrameSize);
    var a, b, c := HelloFields(maxFrameSize)[0], HelloFields(maxFrameSize)[1], HelloFields(maxFrameSize)[2];
    JoinedThree(ArgWire, a, b, c);
    ShortTextBytes("version", "2.0");
    ShortTextBytes("capabilities", "pipelining");
    SizeFieldBytes(maxFrameSize);
    SmallFrame(0x65, Encode(streamId), Encode(frameId), streamId, frameId, ArgWire(a) + ArgWire(b) + ArgWire(c));
  }

  // ---------- what the agent is sent ----------

  /** A NOTIFY of one message with one IPv4 argument, whatever the ids, flags, names and address. */
  lemma NotifyBytes(flags: Octets4, streamId: u64, frameId: u64, name: Text, key: Text, ip: Octets4)
    ensures
      FrameOf(3, flags + (Encode(streamId) + (Encode(frameId)
                 + (Encode(|name|) + name + ([1] + (Encode(|key|) + key + ([0x06] + ip)))))))
      == Some(Notify(streamId, frameId, [Message(name, [Arg(key, IPv4(ip))])]))
  {
    var m := Message(name, [Arg(key, IPv4(ip))]);
    JoinedOne(ArgWire, m.args[0]);
    JoinedOne(MessageWire, m);
    AddressBytes(ip, [0, 0, 0, 0, 0, 0, 0, 0, 0, 0, 0, 0, 0, 0, 0, 0]);
    assert MessageWire(m) == Encode(|name|) + name + ([1] + (Encode(|key|) + key + ([0x06] + ip)));
    NotifyRoundTrip(flags, streamId, frameId, [m]);
  }

  /** A hello: which field fills which part, whatever the ids, flags and values. */
  lemma HelloBytes(flags: Octets4, streamId: u64, frameId: u64, versions: Text, most: u32, health: bool, engine: Text)
    ensures
      FrameOf(1, flags + (Encode(streamId) + (Encode(frameId)
                 + (([18] + Ascii("supported-versions") + ([0x08] + Encode(|versions|) + versions))
                    + ([14] + Ascii("max-frame-size") + ([0x03] + Encode(most)))
                    + ([11] + Ascii("healthcheck") + [if health then 0x11 else 0x01])
                    + ([9] + Ascii("engine-id") + ([0x08] + Encode(|engine|) + engine))))))
      == Some(HaproxyHello(streamId, frameId, engine, versions, most, health))
  {
    var a, b := Arg(Ascii("supported-versions"), TypedData.Str(versions)), Arg(Ascii("max-frame-size"), UInt32(most));
    var c, d := Arg(Ascii("healthcheck"), Boolean(health)), Arg(Ascii("engine-id"), TypedData.Str(engine));
    JoinedFour(ArgWire, a, b, c, d);
    HelloFieldBytes(a, b, c, d, versions, most, health, engine);
    FieldFramesRoundTrip(flags, streamId, frameId, [a, b, c, d]);
    HelloOfFour(streamId, frameId, a, b, c, d);
  }

  lemma JoinedFour<T>(w: T -> seq<byte>, a: T, b: T, c: T, d: T)
    ensures Joined(w, [a, b, c, d]) == w(a) + w(b) + w(c) + w(d)
  {
    assert [a, b, c, d][1..] == [b, c, d];
    JoinedThree(w, b, c, d);
  }

  lemma HelloFieldBytes(a: Arg, b: Arg, c: Arg, d: Arg, versions: Text, most: u32, health: bool, engine: Text)
    requires a == Arg(Ascii("supported-versions"), TypedData.Str(versions)) && b == Arg(Ascii("max-frame-size"), UInt32(most))
    requires c == Arg(Ascii("healthcheck"), Boolean(health)) && d == Arg(Ascii("engine-id"), TypedData.Str(engine))
    ensures ArgWire(a) == [18] + Ascii("supported-versions") + ([0x08] + Encode(|versions|) + versions)
    ensures ArgWire(b) == [14] + Ascii("max-frame-size") + ([0x03] + Encode(most))
    ensures ArgWire(c) == [11] + Ascii("healthcheck") + [if health then 0x11 else 0x01]
    ensures ArgWire(d) == [9] + Ascii("engine-id") + ([0x08] + Encode(|engine|) + engine)
  {
    FieldBytes(a.name, a.value);
    FieldBytes(b.name, b.value);
    FieldBytes(c.name, c.value);
    FieldBytes(d.name, d.value);
    TextBytes(versions);
    UnsignedBytes(most, 0);
    FlagBytes(health);
    TextBytes(engine);
  }

  lemma HelloOfFour(streamId: u64, frameId: u64, a: Arg, b: Arg, c: Arg, d: Arg)
    requires a.name == Ascii("supported-versions") && a.value.Str? && b.name == Ascii("max-frame-size") && b.value.UInt32?
    requires c.name == Ascii("healthcheck") && c.value.Boolean? && d.name == Ascii("engine-id") && d.value.Str?
    ensures HelloOf(streamId, frameId, [a, b, c, d])
         == HaproxyHello(streamId, frameId, d.value.str, a.value.str, b.value.u32, c.value.boolean)
  {
    LastOf([a, b, c], d);
    LastOf([a, b], c);
    LastOf([a], b);
    LastOf([], a);
    assert |Ascii("supported-versions")| == 18 && |Ascii("max-frame-size")| == 14;
    assert |Ascii("healthcheck")| == 11 && |Ascii("engine-id")| == 9;
    assert [] + [a] == [a] && [a] + [b] == [a, b] && [a, b] + [c] == [a, b, c] && [a, b, c] + [d] == [a, b, c, d];
  }

  lemma LastOf(fields: seq<Arg>, x: Arg)
    ensures forall key ::
      LastText(fields + [x], key) == if x.name == key && x.value.Str? then x.value.str else LastText(fields, key)
    ensures forall key ::
      LastUInt(fields + [x], key) == if x.name == key && x.value.UInt32? then x.value.u32 else LastUInt(fields, key)
    ensures forall key ::
      LastBool(fields + [x], key) == if x.name == key && x.value.Boolean? then x.value.boolean else LastBool(fields, key)
  {
    assert (fields + [x])[..|fields|] == fields;
  }

  lemma DisconnectOfTwo(streamId: u64, frameId: u64, a: Arg, b: Arg)
    requires a.name == Ascii("status-code") && a.value.UInt32? && b.name == Ascii("message") && b.value.Str?
    ensures DisconnectOf(streamId, frameId, [a, b]) == HaproxyDisconnect(streamId, frameId, a.value.u32, b.value.str)
  {
    LastOf([a], b);
    LastOf([], a);
    assert |Ascii("status-code")| == 11 && |Ascii("message")| == 7;
    assert [] + [a] == [a] && [a] + [b] == [a, b];
  }

  lemma DisconnectFieldBytes(a: Arg, b: Arg, code: u32, text: Text)
    requires a == Arg(Ascii("status-code"), UInt32(code)) && b == Arg(Ascii("message"), TypedData.Str(text))
    ensures ArgWire(a) == [11] + Ascii("status-code") + ([0x03] + Encode(code))
    ensures ArgWire(b) == [7] + Ascii("message") + ([0x08] + Encode(|text|) + text)
  {
    FieldBytes(a.name, a.value);
    FieldBytes(b.name, b.value);
    UnsignedBytes(code, 0);
    TextBytes(text);
  }

  /** A disconnect. */
  lemma DisconnectBytes(flags: Octets4, streamId: u64, frameId: u64, code: u32, text: Text)
    ensures
      FrameOf(2, flags + (Encode(streamId) + (Encode(frameId)
                 + (([11] + Ascii("status-code") + ([0x03] + Encode(code)))
                    + ([7] + Ascii("message") + ([0x08] + Encode(|text|) + text))))))
      == Some(HaproxyDisconnect(streamId, frameId, code, text))
  {
    var a, b := Arg(Ascii("status-code"), UInt32(code)), Arg(Ascii("message"), TypedData.Str(text));
    JoinedPair(ArgWire, a, b);
    DisconnectFieldBytes(a, b, code, text);
    FieldFramesRoundTrip(flags, streamId, frameId, [a, b]);
    DisconnectOfTwo(streamId, frameId, a, b);
  }

  /** Of several fields with the same key and a fitting type the last one counts; without one there is the default. */
  lemma {:induction false} LastTextIsLast(fields: seq<Arg>, key: seq<byte>)
    ensures
      || (LastText(fields, key) == [] && forall k | 0 <= k < |fields| :: !(fields[k].name == key && fields[k].value.Str?))
      || (exists k :: && 0 <= k < |fields| && fields[k].name == key && fields[k].value.Str?
                      && fields[k].value.str == LastText(fields, key)
                      && forall j | k < j < |fields| :: !(fields[j].name == key && fields[j].value.Str?))
  {
    if fields != [] {
      var last := |fields| - 1;
      if fields[last].name == key && fields[last].value.Str? {
        assert fields[last].value.str == LastText(fields, key);
      } else {
        LastTextIsLast(fields[..last], key);
        assert forall k | 0 <= k < last :: fields[..last][k] == fields[k];
      }
    }
  }
}
