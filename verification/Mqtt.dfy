/** MQTT 3.1.1 packets as far as the client exchanges them. */
module MqttSpec {
  import opened Words

  datatype Qos = Qos0 | Qos1 | Qos2

  function QosBits(q: Qos): (b: nat)
    ensures b <= 4
  {
    match q case Qos0 => 0 case Qos1 => 2 case Qos2 => 4
  }

  datatype Packet =
    | Publish(topic: seq<byte>, payload: seq<byte>, qos: Qos, retain: bool, dup: bool, id: nat)
    | PubAck(id: nat)
    | PubRec(id: nat)
    | PubRel(id: nat)
    | PubComp(id: nat, flags: nat)
    | PingReq
    | PingResp

  /** The remaining length, seven bits at a time, least significant first (section 2.2.3). */
  function VarLength(n: nat): (b: seq<byte>)
    ensures |b| > 0
  {
    if n < 128 then [n] else [n % 128 + 128] + VarLength(n / 128)
  }

  function Word(v: nat): (b: seq<byte>)
    requires v < 0x1_0000
    ensures |b| == 2
  {
    [v / 256, v % 256]
  }

  predicate Valid(p: Packet) {
    match p
    case Publish(topic, payload, qos, _, _, id) =>
      |topic| < 0x1_0000 && id < 0x1_0000 && |Body(p)| < 0x1_0000 && forall k :: 0 <= k < |topic| ==> topic[k] != 0
    case PubComp(id, flags) => id < 0x1_0000 && flags < 16
    case PubAck(id) => id < 0x1_0000
    case PubRec(id) => id < 0x1_0000
    case PubRel(id) => id < 0x1_0000
    case _ => true
  }

  /** The first byte: packet type and flags. */
  function Header(p: Packet): byte
    requires p.PubComp? ==> p.flags < 16
  {
    match p
    case Publish(_, _, qos, retain, dup, _) => 0x30 + (if dup then 8 else 0) + QosBits(qos) + (if retain then 1 else 0)
    case PubAck(_) => 0x40
    case PubRec(_) => 0x50
    case PubRel(_) => 0x62
    case PubComp(_, flags) => 0x70 + flags
    case PingReq => 0xC0
    case PingResp => 0xD0
  }

  function IdBytes(qos: Qos, id: nat): (b: seq<byte>)
    requires id < 0x1_0000
    ensures |b| == if qos.Qos0? then 0 else 2
  {
    if qos.Qos0? then [] else Word(id)
  }

  /** Everything after the remaining length. */
  function Body(p: Packet): seq<byte> {
    match p
    case Publish(topic, payload, qos, _, _, id) =>
      if |topic| < 0x1_0000 && id < 0x1_0000 then Word(|topic|) + topic + IdBytes(qos, id) + payload else []
    case PubAck(id) => if id < 0x1_0000 then Word(id) else []
    case PubRec(id) => if id < 0x1_0000 then Word(id) else []
    case PubRel(id) => if id < 0x1_0000 then Word(id) else []
    case PubComp(id, _) => if id < 0x1_0000 then Word(id) else []
    case _ => []
  }

  function Frame(header: byte, body: seq<byte>): seq<byte> {
    [header] + VarLength(|body|) + body
  }

  function Serialize(p: Packet): seq<byte>
    requires Valid(p)
  {
    Frame(Header(p), Body(p))
  }

  lemma {:induction false} VarLengthSize(n: nat)
    ensures n < 0x1000_0000 ==> |VarLength(n)| <= 4
    ensures n < 0x20_0000 ==> |VarLength(n)| <= 3
    ensures n < 0x4000 ==> |VarLength(n)| <= 2
    ensures n < 0x80 ==> |VarLength(n)| == 1
  {
    if n >= 128 {
      VarLengthSize(n / 128);
    }
  }
}

/** Reading packets back, from the layout in sections 2.2 and 3 of MQTT 3.1.1. */
module MqttParse {
  import opened Words
  import opened MqttSpec

  /** A remaining length and how many bytes it takes. */
  function ParseLength(b: seq<byte>): Option<(nat, nat)> {
    if |b| == 0 then Nothing
    else if b[0] < 128 then Some((b[0], 1))
    else match ParseLength(b[1..])
      case Nothing => Nothing
      case Some((v, k)) => Some((b[0] - 128 + 128 * v, k + 1))
  }

  /** A word, most significant byte first. */
  function ParseWord(b: seq<byte>): nat
    requires |b| >= 2
  {
    (b[0] as int) * 256 + b[1]
  }

  function ParsePublish(flags: nat, b: seq<byte>): Option<Packet> {
    var qos, dup, retain := flags / 2 % 4, flags / 8 % 2 == 1, flags % 2 == 1;
    var n := if qos == 0 then 0 else 2;
    if |b| < 2 || qos == 3 then Nothing
    else
      var at := 2 + ParseWord(b);
      if |b| < at + n then Nothing
      else Some(Publish(b[2..at], b[at + n..], if qos == 0 then Qos0 else if qos == 1 then Qos1 else Qos2, retain, dup,
                        if qos == 0 then 0 else ParseWord(b[at..])))
  }

  function ParseBody(kind: nat, flags: nat, b: seq<byte>): Option<Packet> {
    if kind == 3 then ParsePublish(flags, b)
    else if kind == 12 then if flags == 0 && b == [] then Some(PingReq) else Nothing
    else if kind == 13 then if flags == 0 && b == [] then Some(PingResp) else Nothing
    else if |b| != 2 then Nothing
    else if kind == 4 && flags == 0 then Some(PubAck(ParseWord(b)))
    else if kind == 5 && flags == 0 then Some(PubRec(ParseWord(b)))
    else if kind == 6 && flags == 2 then Some(PubRel(ParseWord(b)))
    else if kind == 7 then Some(PubComp(ParseWord(b), flags))
    else Nothing
  }

  /** The first packet of a stream, and what follows it. */
  function Parse(s: seq<byte>): Option<(Packet, seq<byte>)> {
    if |s| == 0 then Nothing
    else match ParseLength(s[1..])
      case Nothing => Nothing
      case Some((n, k)) =>
        if |s| < 1 + k + n then Nothing
        else match ParseBody(s[0] / 16, s[0] % 16, s[1 + k..1 + k + n])
          case Nothing => Nothing
          case Some(p) => Some((p, s[1 + k + n..]))
  }

  /** A message of quality of service 0 carries no identifier. */
  predicate Complete(p: Packet) {
    Valid(p) && (p.Publish? && p.qos.Qos0? ==> p.id == 0)
  }

  lemma {:induction false} LengthRead(n: nat, tail: seq<byte>)
    ensures ParseLength(VarLength(n) + tail) == Some((n, |VarLength(n)|))
  {
    var b := VarLength(n) + tail;
    if n >= 128 {
      LengthRead(n / 128, tail);
      assert b[1..] == VarLength(n / 128) + tail;
    }
  }

  lemma WordRead(v: nat, tail: seq<byte>)
    requires v < 0x1_0000
    ensures ParseWord(Word(v) + tail) == v
  {
  }

  lemma HeaderRead(p: Packet)
    requires Valid(p)
    ensures Header(p) / 16 == match p
      case Publish(_, _, _, _, _, _) => 3 case PubAck(_) => 4 case PubRec(_) => 5 case PubRel(_) => 6
      case PubComp(_, _) => 7 case PingReq => 12 case PingResp => 13
    ensures p.Publish? ==> var f := Header(p) % 16;
      f / 2 % 4 == (if p.qos.Qos0? then 0 else if p.qos.Qos1? then 1 else 2) && (f / 8 % 2 == 1 <==> p.dup) && (f % 2 == 1 <==> p.retain)
    ensures !p.Publish? ==> Header(p) % 16 == if p.PubRel? then 2 else if p.PubComp? then p.flags else 0
  {
  }

  lemma PublishRead(p: Packet)
    requires p.Publish? && Complete(p)
    ensures ParsePublish(Header(p) % 16, Body(p)) == Some(p)
  {
    hide Word, ParseWord, Header;
    HeaderRead(p);
    var b, i := Body(p), IdBytes(p.qos, p.id);
    var at := 2 + |p.topic|;
    assert b == Word(|p.topic|) + (p.topic + i + p.payload);
    WordRead(|p.topic|, p.topic + i + p.payload);
    assert b[2..at] == p.topic && b[at..] == i + p.payload && b[at + |i|..] == p.payload;
    if !p.qos.Qos0? {
      WordRead(p.id, p.payload);
    }
  }

  lemma BodyRead(p: Packet)
    requires Complete(p)
    ensures ParseBody(Header(p) / 16, Header(p) % 16, Body(p)) == Some(p)
  {
    hide Header, ParsePublish;
    HeaderRead(p);
    if p.Publish? {
      PublishRead(p);
    } else if !p.PingReq? && !p.PingResp? {
      WordRead(p.id, []);
      assert Body(p) == Word(p.id) + [];
    }
  }

  /** Every packet is read back as it was, with all its flags, and exactly its bytes are taken. */
  lemma ParseSerialize(p: Packet, rest: seq<byte>)
    requires Complete(p)
    ensures Parse(Serialize(p) + rest) == Some((p, rest))
  {
    hide VarLength, Header, Body, ParseLength, ParseBody;
    var h, v, b := [Header(p)], VarLength(|Body(p)|), Body(p);
    var s := Serialize(p) + rest;
    assert s == h + (v + (b + rest));
    assert s[1..] == v + (b + rest) && s[0] == Header(p);
    LengthRead(|b|, b + rest);
    assert s[1 + |v|..] == b + rest;
    assert s[1 + |v|..1 + |v| + |b|] == b && s[1 + |v| + |b|..] == rest;
    BodyRead(p);
  }
}

/** What a client does with a packet. */
module MqttReaction {
  import opened Words
  import opened MqttSpec

  datatype Message = Message(topic: seq<byte>, payload: seq<byte>)

  /** The packets that are sent in answer. */
  function Replies(p: Packet, hasCallback: bool): seq<Packet> {
    match p
    case Publish(_, _, qos, _, _, id) =>
      if !hasCallback || qos.Qos0? then [] else if qos.Qos1? then [PubAck(id)] else [PubRec(id)]
    case PubRec(id) => [PubRel(id)]
    case PubRel(id) => [PubComp(id, 2)]
    case PingReq => [PingResp]
    case _ => []
  }

  /** What is handed to the callback. */
  function Deliveries(p: Packet, hasCallback: bool): seq<Message> {
    if p.Publish? && hasCallback then [Message(p.topic, p.payload)] else []
  }

  /** The identifiers for which the application is told that the exchange is complete. */
  function Confirmations(p: Packet, hasQosCallback: bool): seq<nat> {
    if !hasQosCallback then []
    else if p.PubAck? then [p.id]
    else if p.PubComp? && p.flags / 2 % 4 == 0 then [p.id]
    else []
  }

  /** The answers on the wire: PUBACK, PUBREC, PUBREL and PUBCOMP with the identifier that came in. */
  lemma AnswerBytes(p: Packet, id: nat)
    requires MqttSpec.Valid(p) && id < 0x1_0000
    ensures p.Publish? && p.id == id && p.qos.Qos1? ==> Bytes(Replies(p, true)) == [0x40, 2, id / 256, id % 256]
    ensures p.Publish? && p.id == id && p.qos.Qos2? ==> Bytes(Replies(p, true)) == [0x50, 2, id / 256, id % 256]
    ensures p == PubRec(id) ==> Bytes(Replies(p, true)) == [0x62, 2, id / 256, id % 256]
    ensures p == PubRel(id) ==> Bytes(Replies(p, true)) == [0x72, 2, id / 256, id % 256]
    ensures p.PingReq? ==> Bytes(Replies(p, true)) == [0xD0, 0]
  {
    assert VarLength(2) == [2] && VarLength(0) == [0];
    var r := Replies(p, true);
    if |r| == 1 {
      assert r[1..] == [];
      assert Serialize(r[0]) + [] == Serialize(r[0]);
    }
  }

  function Bytes(packets: seq<Packet>): seq<byte>
    requires forall k :: 0 <= k < |packets| ==> Valid(packets[k])
  {
    if |packets| == 0 then [] else Serialize(packets[0]) + Bytes(packets[1..])
  }
}

/** The client: one buffer shared by sending, receiving and the callback. */
module Mqtt {
  import opened Words
  import opened Products
  import opened MqttSpec
  import opened MqttReaction

  class Client {
    const buffer: array<byte>
    const keepalive: nat
    const hasCallback: bool
    const hasQosCallback: bool
    var nextMsgId: nat
    var lastInActivity: nat
    var lastOutActivity: nat
    var pingOutstanding: bool
    var connected: bool
    // the network in both directions, and what the callbacks were called with
    var inbound: seq<byte>
    var outbound: seq<byte>
    var delivered: seq<Message>
    var confirmed: seq<nat>

    ghost predicate Valid()
      reads this
    {
      8 <= buffer.Length < 0x1_0000 && nextMsgId < 0x1_0000
    }

    constructor (size: nat, keepalive: nat, hasCallback: bool, hasQosCallback: bool)
      requires 8 <= size < 0x1_0000
      ensures Valid() && fresh(buffer) && buffer.Length == size && connected && outbound == [] && inbound == []
      ensures delivered == [] && confirmed == [] && this.hasCallback == hasCallback && this.hasQosCallback == hasQosCallback
      ensures this.keepalive == keepalive && lastInActivity == lastOutActivity == 0
    {
      buffer := new byte[size](_ => 0);
      this.keepalive, this.hasCallback, this.hasQosCallback := keepalive, hasCallback, hasQosCallback;
      nextMsgId, lastInActivity, lastOutActivity, pingOutstanding, connected := 1, 0, 0, false, true;
      inbound, outbound, delivered, confirmed := [], [], [], [];
    }

    // ---------- sending ----------

    method NetWrite(start: nat, length: nat)
      requires start + length <= buffer.Length
      modifies this`outbound
      ensures outbound == old(outbound) + buffer[start..start + length]
    {
      outbound := outbound + buffer[start..start + length];
    }

    /** `writeString`: a C string with its length in front, cut off at the end of the buffer. */
    method WriteString(s: seq<byte>, pos0: nat) returns (pos: nat)
      requires pos0 + 2 <= buffer.Length < 0x1_0000
      modifies buffer
      ensures pos == pos0 + 2 + Cut(|s|, buffer.Length - pos0 - 2)
      ensures buffer[..pos] == old(buffer[..pos0]) + Word(pos - pos0 - 2) + s[..pos - pos0 - 2]
    {
      ghost var before := buffer[..pos0];
      var i := 0;
      pos := pos0 + 2;
      while i < |s| && pos < buffer.Length
        invariant 0 <= i <= |s| && pos == pos0 + 2 + i <= buffer.Length
        invariant buffer[..pos0] == before && buffer[pos0 + 2..pos] == s[..i]
      {
        buffer[pos] := s[i];
        pos := pos + 1;
        i := i + 1;
        assert buffer[pos0 + 2..pos] == s[..i];
      }
      ghost var text := buffer[pos0 + 2..pos];
      buffer[pos - i - 2] := i / 256;
      buffer[pos - i - 1] := i % 256;
      assert buffer[..pos] == before + Word(i) + text;
    }

    static function Cut(n: nat, room: nat): (m: nat)
      ensures m <= n && m <= room
    {
      if n <= room then n else room
    }

    /** `write`: header and remaining length go in front of the body that starts at position 5. */
    method Write(header: byte, length: nat, t: nat) returns (ok: bool)
      requires Valid() && 5 + length <= buffer.Length
      modifies this`outbound, this`lastOutActivity, buffer
      ensures outbound == old(outbound) + Frame(header, old(buffer[5..5 + length])) && ok && lastOutActivity == t
    {
      hide VarLength, Frame;
      ghost var body := buffer[5..5 + length];
      VarLengthSize(length);
      var llen := PutHeader(header, length);
      ghost var start, end := 4 - llen, 5 + length;
      ThreeParts(buffer[..], start, 5, end, end);
      assert buffer[start..start + (length + 1 + llen)] == [header] + VarLength(length) + body;
      FrameIs(header, body);
      NetWrite(4 - llen, length + 1 + llen);
      lastOutActivity := t;
      ok := true;
    }

    static lemma FrameIs(header: byte, body: seq<byte>)
      ensures Frame(header, body) == [header] + VarLength(|body|) + body
    {
    }

    /** Header and remaining length, right-aligned before position 5. */
    method PutHeader(header: byte, length: nat) returns (llen: nat)
      requires 5 + length <= buffer.Length < 0x1_0000
      modifies buffer
      ensures llen == |VarLength(length)| <= 3 && buffer[4 - llen..5] == [header] + VarLength(length)
      ensures buffer[5..5 + length] == old(buffer[5..5 + length])
    {
      hide VarLength;
      var lenBuf := new byte[4](_ => 0);
      llen := EncodeLength(length, lenBuf);
      ghost var digits, tail := lenBuf[..llen], buffer[5..];
      buffer[4 - llen] := header;
      for i := 0 to llen
        invariant buffer[4 - llen..5 - llen + i] == [header] + digits[..i]
        invariant buffer[5..] == tail && lenBuf[..llen] == digits
      {
        ghost var done := buffer[4 - llen..5 - llen + i];
        assert lenBuf[i] == digits[i];
        buffer[5 - llen + i] := lenBuf[i];
        assert buffer[4 - llen..5 - llen + i + 1] == done + [digits[i]];
        assert digits[..i + 1] == digits[..i] + [digits[i]];
      }
      assert digits[..llen] == digits && 5 - llen + llen == 5;
      assert buffer[4 - llen..5] == [header] + digits;
      assert buffer[5..5 + length] == tail[..length];
    }

    static lemma ThreeParts(b: seq<byte>, i: nat, j: nat, k: nat, l: nat)
      requires i <= j <= k <= l <= |b|
      ensures b[i..l] == b[i..j] + b[j..k] + b[k..l] && b[i..k] == b[i..j] + b[j..k]
    {
    }

    /** The digits of the remaining length. */
    static method EncodeLength(length: nat, lenBuf: array<byte>) returns (llen: nat)
      requires length < 0x1_0000 && lenBuf.Length == 4
      modifies lenBuf
      ensures llen == |VarLength(length)| <= 3 && lenBuf[..llen] == VarLength(length)
    {
      VarLengthSize(length);
      var len := length;
      llen := 0;
      var more := true;
      while more
        invariant llen <= 3 && (more ==> lenBuf[..llen] + VarLength(len) == VarLength(length) && llen < 3)
        invariant !more ==> lenBuf[..llen] == VarLength(length)
        decreases more, len
      {
        ghost var done, before := lenBuf[..llen], len;
        var digit := len % 128;
        len := len / 128;
        if len > 0 {
          digit := digit + 0x80;
        }
        lenBuf[llen] := digit;
        llen := llen + 1;
        assert lenBuf[..llen] == done + [digit];
        assert done + VarLength(before) == if before < 128 then done + [digit] else (done + [digit]) + VarLength(len);
        more := len > 0;
      }
    }

    /** Whether a message fits the buffer behind the five bytes that are left for the header. */
    predicate Room(topic: seq<byte>, payload: seq<byte>, qos: Qos)
    {
      7 + |topic| + (if qos.Qos0? then 0 else 2) + |payload| <= buffer.Length
    }

    lemma RoomIff(topic: seq<byte>, payload: seq<byte>, qos: Qos)
      requires |topic| < 0x1_0000 && Valid()
      ensures Room(topic, payload, qos) <==> 5 + |Body(Publish(topic, payload, qos, false, false, 0))| <= buffer.Length
    {
    }

    /** The message as it is cut to the buffer. */
    function Sent(topic: seq<byte>, payload: seq<byte>, qos: Qos, retain: bool, dup: bool, id: nat): Packet
      requires 8 <= buffer.Length
    {
      var t := Cut(|topic|, buffer.Length - 7);
      var room := buffer.Length - 7 - t - if qos.Qos0? then 0 else 2;
      Publish(topic[..t], payload[..Cut(|payload|, if room < 0 then 0 else room)], qos, retain, dup, id)
    }

    /**
      `publish`.  With a message identifier there must be room for the topic and the identifier, which are
      written without a check.
     */
    method SendPublish(topic: seq<byte>, payload: seq<byte>, retain: bool, qos: Qos, dup: bool, wantId: bool, t: nat)
        returns (ok: bool, id: nat)
      requires Valid() && (forall k :: 0 <= k < |topic| ==> topic[k] != 0)
      requires !qos.Qos0? ==> |topic| + 9 <= buffer.Length
      modifies this`outbound, this`lastOutActivity, this`nextMsgId, buffer
      ensures Valid() && ok == connected && id < 0x1_0000 && (lastOutActivity == t || lastOutActivity == old(lastOutActivity))
      ensures !ok ==> outbound == old(outbound) && nextMsgId == old(nextMsgId)
      ensures ok ==> MqttSpec.Valid(Sent(topic, payload, qos, retain, dup, id))
      ensures ok ==> outbound == old(outbound) + Serialize(Sent(topic, payload, qos, retain, dup, id))
      ensures ok && Room(topic, payload, qos) ==> Sent(topic, payload, qos, retain, dup, id) == Publish(topic, payload, qos, retain, dup, id)
      ensures ok && qos.Qos0? ==> id == 0 && nextMsgId == old(nextMsgId)
      ensures ok && !qos.Qos0? ==> id == (old(nextMsgId) + 1) % 0x1_0000
      ensures ok && !qos.Qos0? ==> nextMsgId == (if wantId then (id + 1) % 0x1_0000 else id)
    {
      hide Serialize, Frame, VarLength;
      ok, id := false, 0;
      if !connected {
        return;
      }
      var length;
      length, id := BuildBody(topic, payload, qos, wantId);
      ghost var packet := Sent(topic, payload, qos, retain, dup, id);
      var header := PublishByte(retain, qos, dup);
      assert header == Header(packet) && buffer[5..5 + (length - 5)] == Body(packet);
      ok := Write(header, length - 5, t);
      SerializeIs(packet);
      assert topic[..|topic|] == topic && payload[..|payload|] == payload;
    }

    static method PublishByte(retain: bool, qos: Qos, dup: bool) returns (header: byte)
      ensures forall topic, payload, id :: header == Header(Publish(topic, payload, qos, retain, dup, id))
    {
      header := 0x30;
      if retain {
        header := header + 1;
      }
      if dup {
        header := header + 8;
      }
      header := header + QosBits(qos);
    }

    static lemma SerializeIs(p: Packet)
      requires MqttSpec.Valid(p)
      ensures Serialize(p) == Frame(Header(p), Body(p))
    {
    }

    /** Topic, identifier and payload, from position 5 on. */
    method BuildBody(topic: seq<byte>, payload: seq<byte>, qos: Qos, wantId: bool) returns (length: nat, id: nat)
      requires Valid() && (!qos.Qos0? ==> |topic| + 9 <= buffer.Length)
      modifies this`nextMsgId, buffer
      ensures Valid() && id < 0x1_0000 && 5 <= length <= buffer.Length
      ensures buffer[5..length] == Body(Sent(topic, payload, qos, false, false, id))
      ensures qos.Qos0? ==> id == 0 && nextMsgId == old(nextMsgId)
      ensures !qos.Qos0? ==> id == (old(nextMsgId) + 1) % 0x1_0000
      ensures !qos.Qos0? ==> nextMsgId == (if wantId then (id + 1) % 0x1_0000 else id)
    {
      hide VarLength, Body, Word, IdBytes, Client.Sent;
      id := 0;
      forall k | 0 <= k < buffer.Length {
        buffer[k] := 0;
      }
      length := WriteString(topic, 5);
      ghost var head: seq<byte> := Word(length - 7) + topic[..length - 7];
      assert buffer[5..length] == buffer[..length][5..] == head;
      ghost var t := length - 7;
      length, id := PutId(length, qos, wantId, head);
      ghost var m := length;
      length := AppendPayload(payload, length, head + IdBytes(qos, id));
      SentBody(topic, payload, qos, id, t, length - m);
    }

    lemma SentBody(topic: seq<byte>, payload: seq<byte>, qos: Qos, id: nat, t: nat, n: nat)
      requires Valid() && id < 0x1_0000 && t == Cut(|topic|, buffer.Length - 7)
      requires 7 + t + (if qos.Qos0? then 0 else 2) <= buffer.Length
      requires n == Cut(|payload|, buffer.Length - 7 - t - if qos.Qos0? then 0 else 2)
      ensures Body(Sent(topic, payload, qos, false, false, id)) == Word(t) + topic[..t] + IdBytes(qos, id) + payload[..n]
    {
    }

    /** A new message identifier, if the quality of service needs one. */
    method PutId(start: nat, qos: Qos, wantId: bool, ghost head: seq<byte>) returns (length: nat, id: nat)
      requires Valid() && 5 <= start <= buffer.Length && (!qos.Qos0? ==> start + 2 <= buffer.Length) && buffer[5..start] == head
      modifies this`nextMsgId, buffer
      ensures Valid() && id < 0x1_0000 && length == start + (if qos.Qos0? then 0 else 2)
      ensures buffer[5..length] == head + IdBytes(qos, id)
      ensures qos.Qos0? ==> id == 0 && nextMsgId == old(nextMsgId)
      ensures !qos.Qos0? ==> id == (old(nextMsgId) + 1) % 0x1_0000
      ensures !qos.Qos0? ==> nextMsgId == (if wantId then (id + 1) % 0x1_0000 else id)
    {
      length, id := start, 0;
      if qos.Qos0? {
        assert head + IdBytes(qos, 0) == head;
        return;
      }
      nextMsgId := (nextMsgId + 1) % 0x1_0000;
      length := PutWord(length, nextMsgId, head);
      id := nextMsgId;
      if wantId {
        nextMsgId := (nextMsgId + 1) % 0x1_0000;
      }
    }

    method PutWord(start: nat, v: nat, ghost head: seq<byte>) returns (length: nat)
      requires 5 <= start && start + 2 <= buffer.Length && v < 0x1_0000 && buffer[5..start] == head
      modifies buffer
      ensures length == start + 2 && buffer[5..length] == head + Word(v)
    {
      length := start;
      buffer[length] := v / 256;
      length := length + 1;
      buffer[length] := v % 256;
      length := length + 1;
      ThreeParts(buffer[..], 5, start, length, length);
      assert buffer[start..length] == Word(v);
    }

    method AppendPayload(payload: seq<byte>, start: nat, ghost head: seq<byte>) returns (length: nat)
      requires 5 <= start <= buffer.Length && buffer[5..start] == head
      modifies buffer
      ensures length == start + Cut(|payload|, buffer.Length - start)
      ensures buffer[5..length] == head + payload[..length - start]
    {
      length := start;
      var i := 0;
      while i < |payload| && length < buffer.Length
        invariant 0 <= i <= |payload| && length == start + i <= buffer.Length
        invariant buffer[5..length] == head + payload[..i]
      {
        ghost var done := buffer[5..length];
        buffer[length] := payload[i];
        length := length + 1;
        assert buffer[5..length] == done + [payload[i]];
        i := i + 1;
      }
    }

    // ---------- receiving ----------

    /** `readByte`, when there is a byte. */
    method ReadByte() returns (b: byte)
      requires |inbound| > 0
      modifies this`inbound
      ensures b == old(inbound)[0] && inbound == old(inbound)[1..]
    {
      b := inbound[0];
      inbound := inbound[1..];
    }

    /** A byte goes behind those that are in the buffer. */
    method ReadInto(len: nat) returns (b: byte)
      requires |inbound| > 0 && len < buffer.Length
      modifies this`inbound, buffer
      ensures b == old(inbound)[0] && inbound == old(inbound)[1..] && buffer[..len + 1] == old(buffer[..len]) + [b]
    {
      b := ReadByte();
      buffer[len] := b;
    }

    static predicate IsPublish(header: byte) {
      header / 16 == 3
    }

    /** The loop over the remaining length, on 16-bit and 32-bit words: what is left of it is its value modulo 2^16. */
    method ReadLength(ghost n: nat, ghost tail: seq<byte>) returns (length: nat, len: nat)
      requires Valid() && n < 0x1000_0000 && inbound == VarLength(n) + tail
      modifies this`inbound, buffer
      ensures length == n % 0x1_0000 && len == 1 + |VarLength(n)| <= 5 && inbound == tail
      ensures buffer[..len] == [old(buffer[0])] + VarLength(n)
    {
      hide VarLength, Client.Partial;
      VarLengthSize(n);
      NothingRead(n);
      length, len := 0, 1;
      var multiplier: nat := 1;
      ghost var m: nat, done: seq<byte> := n, [buffer[0]];
      var more := true;
      while more
        invariant 1 <= len <= 5 && buffer[..len] == done && (more ==> len <= 4)
        invariant more ==> Partial(n, m, multiplier, length, len) && inbound == VarLength(m) + tail
        invariant more ==> done + VarLength(m) == [old(buffer[0])] + VarLength(n)
        invariant !more ==> length == n % 0x1_0000 && inbound == tail && done == [old(buffer[0])] + VarLength(n)
        decreases more, 5 - len
      {
        NextDigit(m, done, tail);
        PartialNext(n, m, multiplier, length, len);
        var digit := ReadInto(len);
        done := done + [digit];
        len := len + 1;
        length := (length + digit % 128 * multiplier) % 0x1_0000;
        multiplier := multiplier * 128 % 0x1_0000_0000;
        more := digit >= 128;
        m := m / 128;
      }
    }

    /** The first byte of an encoded length, and what it leaves. */
    static lemma NextDigit(m: nat, done: seq<byte>, tail: seq<byte>)
      ensures var d := VarLength(m) + tail; var x := d[0];
        x % 128 == m % 128 && (x >= 128 <==> m >= 128)
        && d[1..] == (if m >= 128 then VarLength(m / 128) + tail else tail)
        && done + VarLength(m) == if m >= 128 then done + [x] + VarLength(m / 128) else done + [x]
    {
      hide VarLength;
      OneDigit(m);
      if m < 128 {
        FirstAndRest(m, [], done, tail);
        assert done + [m] + [] == done + [m];
      } else {
        FirstAndRest(m % 128 + 128, VarLength(m / 128), done, tail);
      }
    }

    static lemma OneDigit(m: nat)
      ensures VarLength(m) == if m < 128 then [m] + [] else [m % 128 + 128] + VarLength(m / 128)
    {
    }

    static lemma FirstAndRest(x: byte, more: seq<byte>, done: seq<byte>, tail: seq<byte>)
      ensures ([x] + more + tail)[0] == x && ([x] + more + tail)[1..] == more + tail
      ensures done + ([x] + more) == done + [x] + more && [] + tail == tail
    {
    }

    /** The length so far, when n without what m still stands for has been read. */
    static ghost predicate Partial(n: nat, m: nat, multiplier: nat, length: nat, len: nat) {
      && multiplier == (if len == 1 then 1 else if len == 2 then 128 else if len == 3 then 0x4000 else 0x20_0000)
      && m * multiplier <= n < 0x1000_0000 && length == (n - m * multiplier) % 0x1_0000
    }

    static lemma NothingRead(n: nat)
      requires n < 0x1000_0000
      ensures Partial(n, n, 1, 0, 1)
    {
    }

    static lemma PartialNext(n: nat, m: nat, multiplier: nat, length: nat, len: nat)
      requires 1 <= len <= 4 && Partial(n, m, multiplier, length, len)
      ensures m < 128 ==> (length + m % 128 * multiplier) % 0x1_0000 == n % 0x1_0000
      ensures m >= 128 ==> len < 4
      ensures m >= 128 ==>
        Partial(n, m / 128, multiplier * 128 % 0x1_0000_0000, (length + m % 128 * multiplier) % 0x1_0000, len + 1)
    {
      DigitStep(length, m % 128, m, multiplier, n);
    }

    static lemma DigitStep(length: nat, digit: nat, m: nat, multiplier: nat, n: nat)
      requires m * multiplier <= n < 0x1000_0000 && length == (n - m * multiplier) % 0x1_0000 && digit == m % 128
      requires multiplier == 1 || multiplier == 128 || multiplier == 0x4000 || multiplier == 0x20_0000
      ensures m / 128 * (multiplier * 128) <= n
      ensures (length + digit * multiplier) % 0x1_0000 == (n - m / 128 * (multiplier * 128)) % 0x1_0000
      ensures m < 128 ==> (length + digit * multiplier) % 0x1_0000 == n % 0x1_0000
      ensures multiplier == 0x20_0000 ==> m < 128
    {
      var d, e := n - m * multiplier, digit * multiplier;
      assert m == 128 * (m / 128) + digit;
      MulDist(multiplier, 128 * (m / 128), digit);
      MulAssoc(m / 128, 128, multiplier);
      MulNonNeg(digit, multiplier);
      assert n - m / 128 * (multiplier * 128) == d + e;
      DivModUnique(length + e, 0x1_0000, (d + e) / 0x1_0000 - d / 0x1_0000, (d + e) % 0x1_0000);
      if m < 128 {
        assert m / 128 == 0 && d + e == n;
      }
      if multiplier == 0x20_0000 && m >= 128 {
        MulMono(128, m, multiplier);
      }
    }

    /** How many bytes of a body of n bytes `readPacket` takes from the stream. */
    static function Consumed(header: byte, n: nat): nat {
      var length := n % 0x1_0000;
      if IsPublish(header) && length < 2 then 2 else length
    }

    /** The length that `readPacket` reports, for a buffer of the given size; 0 means that the packet is ignored. */
    static function Reported(header: byte, n: nat, size: nat): nat {
      Counted(1 + |VarLength(n)| + Consumed(header, n), size)
    }

    /** A 16-bit count of bytes, or 0 if it exceeds the size of the buffer. */
    static function Counted(n: nat, size: nat): nat {
      if n % 0x1_0000 <= size then n % 0x1_0000 else 0
    }

    /** A packet that is too long for the buffer is skipped as intended exactly up to 2^16 bytes. */
    static lemma SkippedIff(header: byte, body: seq<byte>, size: nat)
      requires 8 <= size < 0x1_0000 && size < |Frame(header, body)| && |body| < 0x1000_0000
      ensures Consumed(header, |body|) == |body| && Reported(header, |body|, size) == 0 <==> |Frame(header, body)| <= 0x1_0000
    {
      hide VarLength;
      var n := |body|;
      VarLengthSize(n);
      var total := 1 + |VarLength(n)| + n;
      assert |Frame(header, body)| == total;
      if n < 0x1_0000 {
        DivModUnique(n, 0x1_0000, 0, n);
        if total < 0x1_0000 {
          DivModUnique(total, 0x1_0000, 0, total);
        } else {
          DivModUnique(total, 0x1_0000, 1, total - 0x1_0000);
        }
      }
    }

    /** Such an input: 65539 bytes are reported as three, in a buffer of any size. */
    static lemma LongPacket(header: byte, body: seq<byte>, size: nat)
      requires |body| == 0xFFFF && 8 <= size < 0x1_0000
      ensures |Frame(header, body)| == 0x1_0003 && Reported(header, |body|, size) == 3
    {
      assert VarLength(0xFFFF) == [0xFF] + ([0xFF] + [3]);
    }

    /**
      `readPacket`.  Lengths are counted modulo 2^16; the part of a packet that does not fit the buffer is read
      and dropped.
     */
    method ReadPacket(ghost header: byte, ghost body: seq<byte>, ghost rest: seq<byte>) returns (len: nat, llen: nat)
      requires Valid() && |body| < 0x1000_0000 && inbound == Frame(header, body) + rest && (IsPublish(header) ==> |body| >= 2)
      modifies this`inbound, buffer
      ensures Consumed(header, |body|) <= |body| && inbound == body[Consumed(header, |body|)..] + rest
      ensures len == Reported(header, |body|, buffer.Length) && llen == |VarLength(|body|)|
      ensures |Frame(header, body)| <= buffer.Length ==> inbound == rest && buffer[..len] == Frame(header, body)
    {
      hide VarLength, Client.Consumed, Client.Counted, Client.Last, Frame;
      FrameIs(header, body);
      ghost var digits := VarLength(|body|);
      VarLengthSize(|body|);
      FirstOfFrame(header, digits, body, rest);
      var b := ReadByte();
      buffer[0] := b;
      var isPublish := buffer[0] / 16 == 3;
      var length;
      length, len := ReadLength(|body|, body + rest);
      llen := len - 1;
      ghost var head := [header] + digits;
      var start := 0;
      if isPublish {
        len := ReadTopicLength(len, head, body, rest);
        start := 2;
      }
      ConsumedIs(header, |body|, start);
      len := ReadBody(start, length, len, head, body, rest);
      assert head + body[..|body|] == Frame(header, body);
      Fitting(header, body, buffer.Length);
      assert body[|body|..] + rest == rest;
    }

    static lemma FirstOfFrame(header: byte, digits: seq<byte>, body: seq<byte>, rest: seq<byte>)
      ensures var b := [header] + digits + body + rest; b[0] == header && b[1..] == digits + (body + rest)
    {
    }

    static lemma Fitting(header: byte, body: seq<byte>, size: nat)
      requires size < 0x1_0000 && |body| < 0x1000_0000 && (IsPublish(header) ==> |body| >= 2)
      ensures Consumed(header, |body|) <= |body|
      ensures |Frame(header, body)| <= size ==>
        Consumed(header, |body|) == |body| && Reported(header, |body|, size) == |Frame(header, body)|
    {
      hide VarLength;
      var n := |body|;
      if |Frame(header, body)| <= size {
        DivModUnique(n, 0x1_0000, 0, n);
        DivModUnique(1 + |VarLength(n)| + n, 0x1_0000, 0, 1 + |VarLength(n)| + n);
      }
    }

    /** A byte is kept while there is room. */
    method Store(len: nat, digit: byte, ghost part: seq<byte>)
      requires |part| < buffer.Length ==> len == |part| && buffer[..len] == part
      modifies buffer
      ensures |part| < buffer.Length ==> buffer[..len + 1] == part + [digit]
    {
      if len < buffer.Length {
        buffer[len] := digit;
      }
    }

    static lemma NextBody(head: seq<byte>, body: seq<byte>, i: nat, rest: seq<byte>)
      requires i < |body|
      ensures var d := body[i..] + rest; d[0] == body[i] && d[1..] == body[i + 1..] + rest
      ensures head + body[..i] + [body[i]] == head + body[..i + 1] && |head + body[..i]| == |head| + i
    {
    }

    static lemma CountStep(c: nat)
      ensures (c % 0x1_0000 + 1) % 0x1_0000 == (c + 1) % 0x1_0000
      ensures c + 1 < 0x1_0000 ==> c % 0x1_0000 == c && (c + 1) % 0x1_0000 == c + 1
    {
      var w := 0x1_0000;
      var q, r := c / w, c % w;
      if r == w - 1 {
        DivModUnique(c + 1, w, q + 1, 0);
        DivModUnique(r + 1, w, 1, 0);
      } else {
        DivModUnique(c + 1, w, q, r + 1);
        DivModUnique(r + 1, w, 0, r + 1);
      }
      if c + 1 < w {
        DivModUnique(c, w, 0, c);
      }
    }

    /** The first two bytes of a publish packet's body. */
    method ReadTopicLength(len0: nat, ghost head: seq<byte>, ghost body: seq<byte>, ghost rest: seq<byte>) returns (len: nat)
      requires len0 + 2 <= buffer.Length && |body| >= 2 && buffer[..len0] == head && inbound == body + rest
      modifies this`inbound, buffer
      ensures len == len0 + 2 && buffer[..len] == head + body[..2] && inbound == body[2..] + rest
    {
      len := len0;
      var b := ReadByte();
      buffer[len] := b;
      len := len + 1;
      assert buffer[..len] == head + body[..1];
      b := ReadByte();
      buffer[len] := b;
      len := len + 1;
      assert buffer[..len] == head + body[..1] + [b];
      assert body[..2] == body[..1] + [b];
    }

    /** One byte of the body, after the i bytes before it. */
    method BodyByte(len: nat, ghost i: nat, ghost head: seq<byte>, ghost body: seq<byte>, ghost rest: seq<byte>) returns (len': nat)
      requires Valid() && i < |body| && len == (|head| + i) % 0x1_0000 && inbound == body[i..] + rest
      requires |head| + i <= buffer.Length ==> buffer[..len] == head + body[..i]
      modifies this`inbound, buffer
      ensures len' == (|head| + i + 1) % 0x1_0000 && inbound == body[i + 1..] + rest
      ensures |head| + i + 1 <= buffer.Length ==> buffer[..len'] == head + body[..i + 1]
    {
      NextBody(head, body, i, rest);
      CountStep(|head| + i);
      ghost var part := head + body[..i];
      var digit := ReadByte();
      Store(len, digit, part);
      len' := (len + 1) % 0x1_0000;
    }

    method ReadBody(start: nat, length: nat, len0: nat, ghost head: seq<byte>, ghost body: seq<byte>, ghost rest: seq<byte>)
        returns (len: nat)
      requires Valid() && start <= |body| && length <= |body| && length < 0x1_0000 && len0 == |head| + start <= buffer.Length
      requires buffer[..len0] == head + body[..start] && inbound == body[start..] + rest
      modifies this`inbound, buffer
      ensures var end := Last(start, length);
        && inbound == body[end..] + rest && len == Counted(|head| + end, buffer.Length)
        && (|head| + end <= buffer.Length ==> buffer[..len] == head + body[..end])
    {
      len := len0;
      CountSmall(len);
      var i := start;
      while i < length
        invariant start <= i && (i == start || i <= length)
        invariant len == (|head| + i) % 0x1_0000 && inbound == body[i..] + rest
        invariant |head| + i <= buffer.Length ==> buffer[..len] == head + body[..i]
      {
        len := BodyByte(len, i, head, body, rest);
        i := i + 1;
      }
      if len > buffer.Length {
        len := 0;
      }
    }

    static function Last(start: nat, length: nat): nat {
      if length < start then start else length
    }

    static lemma ConsumedIs(header: byte, n: nat, start: nat)
      requires start == if IsPublish(header) then 2 else 0
      ensures Last(start, n % 0x1_0000) == Consumed(header, n)
    {
    }

    static lemma CountSmall(c: nat)
      requires c < 0x1_0000
      ensures c % 0x1_0000 == c
    {
    }

    // ---------- dispatching ----------

    /** The user's callback, which may do anything to the buffer it is given a part of. */
    method Callback(topic: seq<byte>, payload: seq<byte>)
      modifies this`delivered, buffer
      ensures delivered == old(delivered) + [Message(topic, payload)]
    {
      delivered := delivered + [Message(topic, payload)];
      ghost var some := buffer[..];
      assert |some| == buffer.Length;
      var junk: seq<byte> :| |junk| == buffer.Length;
      forall k | 0 <= k < buffer.Length {
        buffer[k] := junk[k];
      }
    }

    /** A four-byte packet with an identifier. */
    method Answer(header: byte, id: nat)
      requires Valid() && id < 0x1_0000
      modifies this`outbound, buffer
      ensures outbound == old(outbound) + ([header, 2] + Word(id))
    {
      buffer[0] := header;
      buffer[1] := 2;
      buffer[2] := id / 256;
      buffer[3] := id % 256;
      assert buffer[0..0 + 4] == [header, 2] + Word(id);
      NetWrite(0, 4);
    }

    /** Where the parts of a publish packet lie in the buffer. */
    static lemma PublishLayout(p: Packet, b: seq<byte>, llen: nat)
      requires p.Publish? && MqttSpec.Valid(p) && b == Serialize(p) && llen == |VarLength(|Body(p)|)|
      ensures var n := if p.qos.Qos0? then 0 else 2; var tl := |p.topic|;
        && llen + 3 + tl + n <= |b| && b[0] == Header(p)
        && b[llen + 1] == tl / 256 && b[llen + 2] == tl % 256 && b[llen + 3..llen + 3 + tl] == p.topic
        && (n == 2 ==> b[llen + 3 + tl] == p.id / 256 && b[llen + 3 + tl + 1] == p.id % 256)
        && b[llen + 3 + tl + n..] == p.payload
    {
      hide VarLength, Serialize, Word, Header, Body, IdBytes;
      var head := [Header(p)] + VarLength(|Body(p)|);
      var i := IdBytes(p.qos, p.id);
      var at := llen + 3 + |p.topic|;
      PublishIs(p);
      FiveParts(head, Word(|p.topic|), p.topic, i, p.payload);
      assert b[0] == b[..llen + 1][0];
      WordAt(b, llen + 1, |p.topic|);
      if !p.qos.Qos0? {
        IdIsWord(p.qos, p.id);
        WordAt(b, at, p.id);
      }
    }

    static lemma PublishIs(p: Packet)
      requires p.Publish? && MqttSpec.Valid(p)
      ensures Serialize(p) == [Header(p)] + VarLength(|Body(p)|) + Word(|p.topic|) + p.topic + IdBytes(p.qos, p.id) + p.payload
    {
      hide VarLength, Header, Word, IdBytes;
    }

    static lemma IdIsWord(qos: Qos, id: nat)
      requires id < 0x1_0000 && !qos.Qos0?
      ensures IdBytes(qos, id) == Word(id)
    {
    }

    static lemma WordAt(b: seq<byte>, at: nat, v: nat)
      requires v < 0x1_0000 && at + 2 <= |b| && b[at..at + 2] == Word(v)
      ensures b[at] == v / 256 && b[at + 1] == v % 256
    {
      assert b[at] == b[at..at + 2][0] && b[at + 1] == b[at..at + 2][1];
    }

    static lemma FiveParts(h: seq<byte>, w: seq<byte>, t: seq<byte>, i: seq<byte>, d: seq<byte>)
      ensures var b := h + w + t + i + d; var m, n := |h| + |w|, |h| + |w| + |t|;
        && |b| == n + |i| + |d| && b[..|h|] == h && b[|h|..m] == w && b[m..n] == t
        && b[n..n + |i|] == i && b[n + |i|..] == d
    {
      var b := h + w + t + i + d;
      assert b == h + (w + (t + (i + d)));
      var tail := b[|h| + |w| + |t|..];
      assert tail == i + d;
    }

    static lemma WordOf(v: nat)
      requires v < 0x1_0000
      ensures v / 256 * 256 + v % 256 == v
    {
    }

    /** `(buffer[0] & 0x06) >> 1` */
    static function QosOf(header: byte): nat {
      header / 2 % 4
    }

    static lemma PublishHeader(p: Packet)
      requires p.Publish?
      ensures Header(p) / 16 == 3
      ensures QosOf(Header(p)) == match p.qos case Qos0 => 0 case Qos1 => 1 case Qos2 => 2
    {
    }

    /** The branch of `loop` for incoming messages. */
    method HandlePublish(len: nat, llen: nat, t: nat, ghost p: Packet)
      requires Valid() && p.Publish? && MqttSpec.Valid(p) && len <= buffer.Length && buffer[..len] == Serialize(p)
      requires llen == |VarLength(|Body(p)|)| && hasCallback
      modifies this`outbound, this`delivered, this`lastOutActivity, buffer
      ensures delivered == old(delivered) + Deliveries(p, true)
      ensures outbound == old(outbound) + Bytes(Replies(p, true))
      ensures lastOutActivity == t || lastOutActivity == old(lastOutActivity)
    {
      hide VarLength, Serialize, Bytes, Body, Header, QosOf;
      PublishRead(p, buffer[..], len, llen);
      PublishHeader(p);
      var tl := (buffer[llen + 1] as int) * 256 + buffer[llen + 2];
      var topic := buffer[llen + 3..llen + 3 + tl];
      assert topic == buffer[..][llen + 3..llen + 3 + tl];
      if QosOf(buffer[0]) == 1 {
        var msgId := (buffer[llen + 3 + tl] as int) * 256 + buffer[llen + 3 + tl + 1];
        var payload := buffer[llen + 3 + tl + 2..len];
        assert payload == buffer[..][llen + 3 + tl + 2..len];
        Callback(topic, payload);
        Acknowledge(0x40, msgId, t, PubAck(msgId));
      } else if QosOf(buffer[0]) == 2 {
        var msgId := (buffer[llen + 3 + tl] as int) * 256 + buffer[llen + 3 + tl + 1];
        var payload := buffer[llen + 3 + tl + 2..len];
        assert payload == buffer[..][llen + 3 + tl + 2..len];
        Callback(topic, payload);
        Acknowledge(0x50, msgId, t, PubRec(msgId));
      } else {
        var payload := buffer[llen + 3 + tl..len];
        assert payload == buffer[..][llen + 3 + tl..len];
        Callback(topic, payload);
        NoReply();
      }
    }

    /** The answer to a message of quality of service 1 or 2. */
    method Acknowledge(header: byte, id: nat, t: nat, ghost reply: Packet)
      requires Valid() && id < 0x1_0000 && MqttSpec.Valid(reply) && (reply.PubAck? || reply.PubRec?)
      requires header == (if reply.PubAck? then 0x40 else 0x50) && id == reply.id
      modifies this`outbound, this`lastOutActivity, buffer
      ensures outbound == old(outbound) + Bytes([reply]) && lastOutActivity == t
    {
      hide Bytes, Serialize;
      Answer(header, id);
      ShortPacket(reply);
      lastOutActivity := t;
    }

    static lemma NoReply()
      ensures Bytes([]) == []
    {
    }

    static lemma SliceOf(b: seq<byte>, len: nat, i: nat, j: nat)
      requires i <= j <= len <= |b|
      ensures b[..len][i..j] == b[i..j] && b[..len][i..] == b[i..len]
    {
    }

    /** What the branch for incoming messages reads from the buffer. */
    static lemma PublishRead(p: Packet, b: seq<byte>, len: nat, llen: nat)
      requires p.Publish? && MqttSpec.Valid(p) && len <= |b| && b[..len] == Serialize(p) && llen == |VarLength(|Body(p)|)|
      ensures var n := if p.qos.Qos0? then 0 else 2; var at := llen + 3 + |p.topic|;
        && at + n <= len && b[0] == Header(p) && (b[llen + 1] as int) * 256 + b[llen + 2] == |p.topic|
        && b[llen + 3..at] == p.topic && b[at + n..len] == p.payload
        && (n == 2 ==> (b[at] as int) * 256 + b[at + 1] == p.id)
    {
      hide VarLength, Serialize, Body, Header;
      var head, n, at := b[..len], if p.qos.Qos0? then 0 else 2, llen + 3 + |p.topic|;
      PublishLayout(p, head, llen);
      WordOf(|p.topic|);
      WordOf(p.id);
      SliceOf(b, len, llen + 3, at);
      SliceOf(b, len, at + n, len);
    }

    /** The bytes of a packet that carries only an identifier. */
    static lemma ShortPacket(p: Packet)
      requires MqttSpec.Valid(p) && (p.PubAck? || p.PubRec? || p.PubRel? || p.PubComp?)
      ensures Bytes([p]) == Serialize(p) == [Header(p), 2] + Word(p.id)
    {
      assert VarLength(2) == [2];
      assert [p][1..] == [];
      assert Serialize(p) + [] == Serialize(p);
    }

    static lemma ShortLayout(p: Packet, b: seq<byte>)
      requires MqttSpec.Valid(p) && (p.PubAck? || p.PubRec? || p.PubRel? || p.PubComp?) && b == Serialize(p)
      ensures |b| == 4 && b[0] == Header(p) && b[2] == p.id / 256 && b[3] == p.id % 256
      ensures (b[2] as int) * 256 + b[3] == p.id
    {
      ShortPacket(p);
      WordOf(p.id);
    }

    /** The other branches. */
    method HandleShort(len: nat, ghost p: Packet)
      requires Valid() && connected && !p.Publish? && MqttSpec.Valid(p) && len <= buffer.Length && buffer[..len] == Serialize(p)
      modifies this`outbound, this`confirmed, this`pingOutstanding, buffer
      ensures outbound == old(outbound) + Bytes(Replies(p, hasCallback))
      ensures confirmed == old(confirmed) + Confirmations(p, hasQosCallback)
      ensures pingOutstanding == (old(pingOutstanding) && !p.PingResp?)
    {
      hide Serialize;
      ghost var b := buffer[..len];
      assert forall k :: 0 <= k < len ==> buffer[k] == b[k];
      HeaderTypes(p, b);
      if p.PubAck? || p.PubRec? || p.PubRel? || p.PubComp? {
        ShortLayout(p, b);
      }
      var kind := buffer[0] / 16;
      if kind == 5 {
        var msgId := (buffer[2] as int) * 256 + buffer[3];
        Answer(0x62, msgId);
        ShortPacket(PubRel(msgId));
      } else if kind == 4 {
        if hasQosCallback {
          if len == 4 && buffer[0] / 2 % 4 == 0 {
            confirmed := confirmed + [(buffer[2] as int) * 256 + buffer[3]];
          }
        }
      } else if kind == 6 {
        var msgId := (buffer[2] as int) * 256 + buffer[3];
        Answer(0x72, msgId);
        ShortPacket(PubComp(msgId, 2));
      } else if kind == 7 {
        if hasQosCallback {
          if len == 4 && buffer[0] / 2 % 4 == 0 {
            confirmed := confirmed + [(buffer[2] as int) * 256 + buffer[3]];
          }
        }
      } else if kind == 12 {
        PingBytes();
        buffer[0] := 0xD0;
        buffer[1] := 0;
        assert buffer[0..0 + 2] == [0xD0, 0];
        NetWrite(0, 2);
      } else if kind == 13 {
        pingOutstanding := false;
      }
    }

    static lemma PingBytes()
      ensures Bytes([PingResp]) == [0xD0, 0] && Serialize(PingReq) == [0xC0, 0] && Bytes([]) == []
    {
      assert VarLength(0) == [0];
      assert [PingResp][1..] == [];
      assert Serialize(PingResp) == [0xD0, 0];
    }

    static lemma HeaderTypes(p: Packet, b: seq<byte>)
      requires MqttSpec.Valid(p) && b == Serialize(p)
      ensures |b| > 0 && b[0] == Header(p)
      ensures b[0] / 16 == match p
        case Publish(_, _, _, _, _, _) => 3 case PubAck(_) => 4 case PubRec(_) => 5 case PubRel(_) => 6
        case PubComp(_, _) => 7 case PingReq => 12 case PingResp => 13
      ensures p.PubAck? ==> b[0] / 2 % 4 == 0
      ensures p.PubComp? ==> b[0] / 2 % 4 == p.flags / 2 % 4
    {
    }

    /** Unsigned difference of two clock readings. */
    static function Elapsed(now: nat, since: nat): nat {
      (now - since) % 0x1_0000_0000
    }

    predicate PingDue(t: nat)
      reads this
    {
      Elapsed(t, lastInActivity) > keepalive * 1000 || Elapsed(t, lastOutActivity) > keepalive * 1000
    }

    /** `disconnect`, as far as the stream of the network sees it. */
    method Disconnect(t: nat)
      requires Valid()
      modifies this`outbound, this`connected, this`lastInActivity, this`lastOutActivity, buffer
      ensures outbound == old(outbound) + [0xE0, 0] && !connected && lastInActivity == lastOutActivity == t
    {
      buffer[0] := 0xE0;
      buffer[1] := 0;
      assert buffer[0..0 + 2] == [0xE0, 0];
      NetWrite(0, 2);
      connected := false;
      lastInActivity, lastOutActivity := t, t;
    }

    /** The request that an idle connection sends. */
    method Ping(t: nat)
      requires Valid()
      modifies this`outbound, this`pingOutstanding, this`lastInActivity, this`lastOutActivity, buffer
      ensures outbound == old(outbound) + Serialize(PingReq) && pingOutstanding && !PingDue(t)
    {
      buffer[0] := 0xC0;
      buffer[1] := 0;
      assert buffer[0..0 + 2] == [0xC0, 0];
      PingBytes();
      NetWrite(0, 2);
      lastOutActivity := t;
      lastInActivity := t;
      pingOutstanding := true;
    }

    /** What the keep-alive of an idle connection sends. */
    static function Pings(due: bool): seq<byte> {
      if due then Serialize(PingReq) else []
    }

    /**
      `loop` at time t.  An idle connection is given up if a ping is still unanswered, and pinged otherwise.  Then
      a packet that has come in is taken from the stream and handled as `Replies`, `Deliveries` and
      `Confirmations` say, unless it is too long for the buffer, in which case it is skipped.
     */
    method Loop(t: nat, later: nat, ghost p: Packet, ghost rest: seq<byte>) returns (worked: bool)
      requires Valid()
      requires connected && inbound != [] ==> MqttSpec.Valid(p) && inbound == Serialize(p) + rest && |Serialize(p)| <= 0x1_0000
      modifies this, buffer
      ensures Valid() && nextMsgId == old(nextMsgId)
      ensures connected == (old(connected) && !(old(PingDue(t)) && old(pingOutstanding)))
      ensures worked == (connected && old(inbound) != [])
      ensures !old(connected) ==> unchanged(this) && unchanged(buffer)
      ensures old(connected) && !connected ==> outbound == old(outbound) + [0xE0, 0] && inbound == old(inbound)
      ensures connected ==> !PingDue(t)
      ensures !worked ==> delivered == old(delivered) && confirmed == old(confirmed)
      ensures connected && !worked ==> outbound == old(outbound) + Pings(old(PingDue(t))) && inbound == []
      ensures connected && !worked ==> pingOutstanding == (old(pingOutstanding) || old(PingDue(t)))
      ensures worked ==> inbound == rest
      ensures worked && |Serialize(p)| <= buffer.Length ==>
        (outbound == old(outbound) + Pings(old(PingDue(t))) + Bytes(Replies(p, hasCallback))
        && delivered == old(delivered) + Deliveries(p, hasCallback)
        && confirmed == old(confirmed) + Confirmations(p, hasQosCallback)
        && pingOutstanding == ((old(pingOutstanding) || old(PingDue(t))) && !p.PingResp?)
        && lastInActivity == t)
      ensures worked && buffer.Length < |Serialize(p)| ==>
        outbound == old(outbound) + Pings(old(PingDue(t))) && delivered == old(delivered) && confirmed == old(confirmed)
    {
      hide Serialize, Bytes, Frame, Body, Header;
      worked := false;
      if !connected {
        return;
      }
      if PingDue(t) {
        if pingOutstanding {
          Disconnect(later);
          return;
        }
        Ping(t);
      }
      worked := HandleInput(t, p, rest);
    }

    /** The second half of `loop`. */
    method HandleInput(t: nat, ghost p: Packet, ghost rest: seq<byte>) returns (worked: bool)
      requires Valid() && connected && !PingDue(t)
      requires inbound != [] ==> MqttSpec.Valid(p) && inbound == Serialize(p) + rest && |Serialize(p)| <= 0x1_0000
      modifies this, buffer
      ensures Valid() && connected && nextMsgId == old(nextMsgId) && !PingDue(t)
      ensures worked == (old(inbound) != [])
      ensures !worked ==> outbound == old(outbound) && delivered == old(delivered) && confirmed == old(confirmed) && inbound == []
      ensures worked ==> inbound == rest
      ensures worked && |Serialize(p)| <= buffer.Length ==>
        (outbound == old(outbound) + Bytes(Replies(p, hasCallback))
        && delivered == old(delivered) + Deliveries(p, hasCallback)
        && confirmed == old(confirmed) + Confirmations(p, hasQosCallback))
      ensures worked && buffer.Length < |Serialize(p)| ==>
        outbound == old(outbound) && delivered == old(delivered) && confirmed == old(confirmed)
      ensures worked && |Serialize(p)| <= buffer.Length ==> lastInActivity == t
      ensures pingOutstanding == (old(pingOutstanding) && !(worked && |Serialize(p)| <= buffer.Length && p.PingResp?))
    {
      hide VarLength, Serialize, Frame, Body, Header, Client.Reported, Client.Consumed, Bytes;
      worked := false;
      if |inbound| > 0 {
        worked := true;
        SerializeIs(p);
        HeaderTypes(p, Serialize(p));
        BodySize(p);
        var len, llen := ReadPacket(Header(p), Body(p), rest);
        ReadOutcome(p, buffer.Length, rest);
        if len > 0 {
          lastInActivity := t;
          assert buffer[0] == buffer[..len][0];
          if buffer[0] / 16 == 3 {
            if hasCallback {
              HandlePublish(len, llen, t, p);
            } else {
              NoReply();
            }
          } else {
            HandleShort(len, p);
          }
        }
      }
    }

    /** What `readPacket` makes of a packet: all of it is taken, and reported as it is if it fits. */
    static lemma ReadOutcome(p: Packet, size: nat, rest: seq<byte>)
      requires MqttSpec.Valid(p) && 8 <= size < 0x1_0000 && |Serialize(p)| <= 0x1_0000
      ensures Consumed(Header(p), |Body(p)|) == |Body(p)| && Body(p)[|Body(p)|..] + rest == rest
      ensures Reported(Header(p), |Body(p)|, size) == if |Serialize(p)| <= size then |Serialize(p)| else 0
      ensures 0 < |Serialize(p)| && Serialize(p) == Frame(Header(p), Body(p))
    {
      hide VarLength, Body, Header;
      BodySize(p);
      if |Serialize(p)| <= size {
        Fitting(Header(p), Body(p), size);
      } else {
        SkippedIff(Header(p), Body(p), size);
      }
    }

    static lemma BodySize(p: Packet)
      requires MqttSpec.Valid(p)
      ensures |Body(p)| < 0x1_0000 && (IsPublish(Header(p)) ==> |Body(p)| >= 2)
    {
    }
  }
}

/** Two clients that talk to each other. */
module MqttExchange {
  import opened Words
  import opened MqttSpec
  import opened MqttReaction
  import opened Mqtt

  /** The network. */
  method Transfer(a: Client, b: Client)
    requires a != b
    modifies a`outbound, b`inbound
    ensures a.outbound == [] && b.inbound == old(b.inbound) + old(a.outbound)
  {
    b.inbound := b.inbound + a.outbound;
    a.outbound := [];
  }

  ghost predicate Quiet(a: Client, b: Client, t: nat)
    reads a, b
  {
    && a != b && a.buffer != b.buffer && a.Valid() && b.Valid() && a.connected && b.connected && !a.PingDue(t) && !b.PingDue(t)
    && a.inbound == [] && a.outbound == [] && b.inbound == [] && b.outbound == [] && b.hasCallback && a.hasQosCallback
  }

  /** One packet travels from a to b and is handled there. */
  method Hop(a: Client, b: Client, t: nat, ghost p: Packet)
    requires a != b && a.buffer != b.buffer && b.Valid() && b.connected && !b.PingDue(t) && b.inbound == []
    requires MqttSpec.Valid(p) && a.outbound == Serialize(p) && |Serialize(p)| <= b.buffer.Length
    modifies a`outbound, b, b.buffer
    ensures a.outbound == [] && b.inbound == [] && b.Valid() && b.connected && !b.PingDue(t)
    ensures b.outbound == old(b.outbound) + Bytes(Replies(p, b.hasCallback))
    ensures b.delivered == old(b.delivered) + Deliveries(p, b.hasCallback)
    ensures b.confirmed == old(b.confirmed) + Confirmations(p, b.hasQosCallback)
  {
    hide Serialize;
    Transfer(a, b);
    assert b.inbound == Serialize(p) + [];
    SomeBytes(p);
    var worked := b.Loop(t, t, p, []);
  }

  lemma SomeBytes(p: Packet)
    requires MqttSpec.Valid(p)
    ensures Serialize(p) != []
  {
  }

  lemma One(p: Packet)
    requires MqttSpec.Valid(p)
    ensures Bytes([p]) == Serialize(p) && Bytes([]) == []
  {
    assert [p][1..] == [];
    assert Serialize(p) + [] == Serialize(p);
  }

  lemma ShortSize(p: Packet)
    requires MqttSpec.Valid(p) && (p.PubAck? || p.PubRec? || p.PubRel? || p.PubComp?)
    ensures |Serialize(p)| == 4
  {
    Client.ShortPacket(p);
  }

  /**
    A message from a to b, until nothing is under way.  It is delivered exactly
    once with exactly its topic and payload.  The sender's application is told that a QoS 1 exchange is
    complete, but never for QoS 2: this client answers PUBREL with a PUBCOMP whose flags are not zero, and
    ignores such a PUBCOMP itself.
   */
  method Exchange(a: Client, b: Client, topic: seq<byte>, payload: seq<byte>, qos: Qos, t: nat) returns (id: nat)
    requires Quiet(a, b, t) && (forall k :: 0 <= k < |topic| ==> topic[k] != 0)
    requires a.Room(topic, payload, qos) && a.buffer.Length <= b.buffer.Length
    modifies a, b, a.buffer, b.buffer
    ensures Quiet(a, b, t) && id == if qos.Qos0? then 0 else (old(a.nextMsgId) + 1) % 0x1_0000
    ensures b.delivered == old(b.delivered) + [Message(topic, payload)] && a.delivered == old(a.delivered)
    ensures a.confirmed == old(a.confirmed) + if qos.Qos1? then [id] else []
  {
    hide Serialize;
    var ok;
    ok, id := a.SendPublish(topic, payload, false, qos, false, true, t);
    ghost var p := Publish(topic, payload, qos, false, false, id);
    PublishSize(p, a.buffer.Length);
    assert [] + Serialize(p) == Serialize(p);
    Hop(a, b, t, p);
    if qos.Qos1? {
      One(PubAck(id));
      ShortSize(PubAck(id));
      Hop(b, a, t, PubAck(id));
    } else if qos.Qos2? {
      One(PubRec(id));
      Release(a, b, id, t);
    }
  }

  /** The rest of a QoS 2 exchange: PUBREC, PUBREL, PUBCOMP. */
  method Release(a: Client, b: Client, id: nat, t: nat)
    requires a != b && a.buffer != b.buffer && a.Valid() && b.Valid() && a.connected && b.connected
    requires !a.PingDue(t) && !b.PingDue(t) && a.inbound == [] && a.outbound == [] && b.inbound == []
    requires id < 0x1_0000 && b.outbound == Serialize(PubRec(id))
    modifies a, b, a.buffer, b.buffer
    ensures a.Valid() && b.Valid() && a.connected && b.connected && !a.PingDue(t) && !b.PingDue(t)
    ensures a.inbound == [] && a.outbound == [] && b.inbound == [] && b.outbound == []
    ensures b.delivered == old(b.delivered) && a.delivered == old(a.delivered) && a.confirmed == old(a.confirmed)
  {
    hide Serialize;
    ShortSize(PubRec(id));
    Hop(b, a, t, PubRec(id));
    One(PubRel(id));
    ShortSize(PubRel(id));
    Hop(a, b, t, PubRel(id));
    One(PubComp(id, 2));
    ShortSize(PubComp(id, 2));
    Hop(b, a, t, PubComp(id, 2));
  }

  /** What fits the sender's buffer behind the gap for the header fits as a packet. */
  lemma PublishSize(p: Packet, n: nat)
    requires p.Publish? && MqttSpec.Valid(p) && n < 0x1_0000 && 7 + |p.topic| + (if p.qos.Qos0? then 0 else 2) + |p.payload| <= n
    ensures |Serialize(p)| <= n
  {
    VarLengthSize(|Body(p)|);
  }

  /** Two new clients are in such a state until the keep-alive time is over. */
  method Connect(size: nat, keepalive: nat, t: nat) returns (a: Client, b: Client)
    requires 8 <= size < 0x1_0000 && t <= keepalive * 1000 && t < 0x1_0000_0000
    ensures Quiet(a, b, t) && fresh(a) && fresh(b) && a.buffer.Length == b.buffer.Length == size
    ensures a.delivered == b.delivered == [] && a.confirmed == b.confirmed == []
  {
    a := new Client(size, keepalive, true, true);
    b := new Client(size, keepalive, true, true);
  }
}
