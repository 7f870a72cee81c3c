/**
 The frame codec and message reassembly of the Discord gateway's WebSocket client
 (RFC 6455, sections 5.2 to 5.5).

 The connection is a class that holds the bytes still to be read, the bytes already
 sent, the random masking keys still to be drawn and how many more bytes the peer
 accepts before a write fails.
 */
module WebSocket {
  import opened Bytes

  const OP_CONTINUATION: byte := 0x0
  const OP_TEXT: byte := 0x1
  const OP_BINARY: byte := 0x2
  const OP_CLOSE: byte := 0x8
  const OP_PING: byte := 0x9
  const OP_PONG: byte := 0xA

  /** Go's largest int64, and so the longest payload a frame can announce. */
  const MAX_INT64: nat := 0x7FFF_FFFF_FFFF_FFFF

  type Key = k: seq<byte> | |k| == 4 witness [0, 0, 0, 0]

  datatype Frame = Frame(fin: bool, opcode: byte, payload: seq<byte>)

  datatype ReadError =
    | HeaderByte0
    | HeaderByte1
    | Length16
    | Length64
    | LengthOverflow(raw: nat)
    | MaskKeyCut
    | PayloadCut

  /** `rest` is what the buffered reader still holds after the attempt. */
  datatype FrameResult =
    | Parsed(frame: Frame, rest: seq<byte>)
    | Broken(error: ReadError, rest: seq<byte>)

  datatype LengthResult =
    | Length(n: nat, rest: seq<byte>)
    | BadLength(error: ReadError, rest: seq<byte>)

  datatype WriteError = NoEntropy | WriteFailed

  datatype WriteResult = Sent | Unsent(error: WriteError)

  /** The sending half of a connection. */
  datatype Outbound = Outbound(sent: seq<byte>, keys: seq<Key>, room: nat)

  datatype TextResult =
    | Text(text: seq<byte>)
    | Eof
    | FrameError(readError: ReadError)
    | PongError(writeError: WriteError)

  datatype ReadOutcome = ReadOutcome(result: TextResult, input: seq<byte>, out: Outbound)

  // ---------------------------------------------------------------- the codec

  /** The top bit of a header byte: FIN in the first, MASK in the second. */
  predicate TopBit(b: byte) {
    b & 0x80 != 0
  }

  function Opcode(b0: byte): byte {
    b0 & 0x0F
  }

  /** The 7-bit length, or the number of the longer form. */
  function LengthForm(b1: byte): byte {
    b1 & 0x7F
  }

  /** XOR with the four key bytes, cyclically. */
  function Mask(data: seq<byte>, key: Key): (r: seq<byte>)
    ensures |r| == |data|
  {
    seq(|data|, i requires 0 <= i < |data| => data[i] ^ key[i % 4])
  }

  function ParseLength(form: byte, s: seq<byte>): LengthResult {
    if form == 126 then
      if |s| < 2 then BadLength(Length16, [])
      else Length(FromBigEndian(s[..2]), s[2..])
    else if form == 127 then
      if |s| < 8 then BadLength(Length64, [])
      else
        var raw := FromBigEndian(s[..8]);
        if raw > MAX_INT64 then BadLength(LengthOverflow(raw), s[8..])
        else Length(raw, s[8..])
    else Length(form as nat, s)
  }

  function ParseBody(fin: bool, opcode: byte, masked: bool, n: nat, s: seq<byte>): FrameResult {
    if masked then
      if |s| < 4 then Broken(MaskKeyCut, [])
      else if |s| < 4 + n then Broken(PayloadCut, [])
      else Parsed(Frame(fin, opcode, Mask(s[4..4 + n], s[..4])), s[4 + n..])
    else
      if |s| < n then Broken(PayloadCut, [])
      else Parsed(Frame(fin, opcode, s[..n]), s[n..])
  }

  /** What one `readFrame` makes of the bytes in front of it. */
  function ParseFrame(s: seq<byte>): (r: FrameResult)
    ensures r.Parsed? ==> |r.rest| + 2 <= |s| && r.rest == s[|s| - |r.rest|..]
  {
    if |s| == 0 then Broken(HeaderByte0, [])
    else if |s| == 1 then Broken(HeaderByte1, [])
    else
      match ParseLength(LengthForm(s[1]), s[2..])
      case BadLength(e, rest) => Broken(e, rest)
      case Length(n, body) => ParseBody(TopBit(s[0]), Opcode(s[0]), TopBit(s[1]), n, body)
  }

  function LengthField(n: nat): seq<byte>
    requires n <= MAX_INT64
  {
    if n <= 125 then [0x80 | (n as byte)]
    else if n <= 65535 then [0x80 | 126] + BigEndian(n, 2)
    else [0x80 | 127] + BigEndian(n, 8)
  }

  /** The bytes one `writeFrame` puts on the wire. */
  function EncodeFrame(opcode: byte, payload: seq<byte>, key: Key): seq<byte>
    requires |payload| <= MAX_INT64
  {
    [0x80 | opcode] + LengthField(|payload|) + key + Mask(payload, key)
  }

  lemma MaskTwice(data: seq<byte>, key: Key)
    ensures Mask(Mask(data, key), key) == data
  {
    forall i | 0 <= i < |data|
      ensures Mask(Mask(data, key), key)[i] == data[i]
    {
      var d, k := data[i], key[i % 4];
      assert (d ^ k) ^ k == d;
    }
  }

  lemma ShortForm(n: nat)
    requires n <= 125
    ensures var b := 0x80 | (n as byte);
            TopBit(b) && LengthForm(b) == n as byte && n as byte != 126 && n as byte != 127
  {
    ByteOfNat(n);
  }

  /** A written length is read back, whichever of the three forms was chosen. */
  lemma LengthRoundTrip(n: nat, rest: seq<byte>)
    requires n <= MAX_INT64
    ensures var f := LengthField(n);
            f != [] && TopBit(f[0]) && ParseLength(LengthForm(f[0]), f[1..] + rest) == Length(n, rest)
  {
    Capacities();
    if n <= 125 {
      ShortForm(n);
      ByteOfNat(n);
      assert LengthField(n)[1..] + rest == rest;
    } else if n <= 65535 {
      BigEndianRoundTrip(n, 2);
      var tail := BigEndian(n, 2) + rest;
      assert LengthField(n)[1..] + rest == tail;
      assert tail[..2] == BigEndian(n, 2) && tail[2..] == rest;
      assert LengthForm(0x80 | 126) == 126;
    } else {
      BigEndianRoundTrip(n, 8);
      var tail := BigEndian(n, 8) + rest;
      assert LengthField(n)[1..] + rest == tail;
      assert tail[..8] == BigEndian(n, 8) && tail[8..] == rest;
      assert LengthForm(0x80 | 127) == 127;
    }
  }

  lemma BodyRoundTrip(opcode: byte, payload: seq<byte>, key: Key, rest: seq<byte>)
    ensures ParseBody(true, opcode, true, |payload|, key + Mask(payload, key) + rest)
         == Parsed(Frame(true, opcode, payload), rest)
  {
    var n, body := |payload|, key + Mask(payload, key) + rest;
    assert body[..4] == key;
    assert body[4..4 + n] == Mask(payload, key);
    assert body[4 + n..] == rest;
    MaskTwice(payload, key);
  }

  /** Reading undoes writing: same opcode and payload, FIN set, and not a byte more consumed. */
  lemma FrameRoundTrip(opcode: byte, payload: seq<byte>, key: Key, rest: seq<byte>)
    requires opcode < 16 && |payload| <= MAX_INT64
    ensures ParseFrame(EncodeFrame(opcode, payload, key) + rest) == Parsed(Frame(true, opcode, payload), rest)
  {
    hide ParseLength, ParseBody, TopBit, Opcode, LengthForm, LengthField, Mask;
    var field, body := LengthField(|payload|), key + Mask(payload, key) + rest;
    LengthRoundTrip(|payload|, body);
    BodyRoundTrip(opcode, payload, key, rest);
    var s := EncodeFrame(opcode, payload, key) + rest;
    HeaderBits(opcode);
    assert s[0] == 0x80 | opcode && s[1] == field[0];
    assert s[2..] == field[1..] + body;
  }

  lemma HeaderBits(opcode: byte)
    requires opcode < 16
    ensures TopBit(0x80 | opcode) && Opcode(0x80 | opcode) == opcode
  {
  }

  /** No masked frame that carries as many payload bytes is shorter than the one written. */
  lemma EncodingIsShortest(s: seq<byte>, opcode: byte, payload: seq<byte>, key: Key)
    requires |payload| <= MAX_INT64
    requires ParseFrame(s).Parsed? && ParseFrame(s).rest == [] && TopBit(s[1])
    requires |ParseFrame(s).frame.payload| == |payload|
    ensures |EncodeFrame(opcode, payload, key)| <= |s|
  {
    var form := LengthForm(s[1]);
    Capacities();
    if form == 126 {
      assert FromBigEndian(s[2..][..2]) < Capacity(2);
    } else if form != 127 {
      assert form <= 125;
      assert (form as nat) <= 125;
    }
  }

  // ---------------------------------------------------- frames delimit themselves

  /** How many bytes of `s` its first frame takes. */
  function FrameLength(s: seq<byte>): nat
    requires ParseFrame(s).Parsed?
  {
    |s| - |ParseFrame(s).rest|
  }

  /** Where the length field ends. */
  function LengthFieldEnd(form: byte): nat {
    if form == 126 then 4 else if form == 127 then 10 else 2
  }

  lemma LengthIsLocal(form: byte, s: seq<byte>, t: seq<byte>)
    requires ParseLength(form, s).Length?
    ensures |s| >= LengthFieldEnd(form) - 2
    ensures ParseLength(form, s).rest == s[LengthFieldEnd(form) - 2..]
    ensures LengthFieldEnd(form) - 2 <= |t| && t[..LengthFieldEnd(form) - 2] == s[..LengthFieldEnd(form) - 2]
        ==> ParseLength(form, t) == Length(ParseLength(form, s).n, t[LengthFieldEnd(form) - 2..])
    ensures t <= s && |t| < LengthFieldEnd(form) - 2
        ==> ParseLength(form, t) in {BadLength(Length16, []), BadLength(Length64, [])}
  {
  }

  lemma BodyIsLocal(fin: bool, opcode: byte, masked: bool, n: nat, s: seq<byte>, t: seq<byte>)
    requires ParseBody(fin, opcode, masked, n, s).Parsed?
    ensures var k := n + if masked then 4 else 0;
            && |s| >= k
            && ParseBody(fin, opcode, masked, n, s).rest == s[k..]
            && ParseBody(fin, opcode, masked, n, s[..k] + t) == Parsed(ParseBody(fin, opcode, masked, n, s).frame, t)
  {
    var k := n + if masked then 4 else 0;
    var u := s[..k] + t;
    assert u[k..] == t;
    if masked {
      assert u[..4] == s[..4];
      assert u[4..4 + n] == s[4..4 + n];
    } else {
      assert u[..n] == s[..n];
    }
  }

  lemma CutBody(fin: bool, opcode: byte, masked: bool, n: nat, t: seq<byte>)
    requires |t| < n + if masked then 4 else 0
    ensures ParseBody(fin, opcode, masked, n, t) in {Broken(MaskKeyCut, []), Broken(PayloadCut, [])}
  {
  }

  lemma SliceAfterHeader(s: seq<byte>, end: nat, k: nat, t: seq<byte>)
    requires 2 <= end && end + k <= |s|
    ensures var u := s[..end + k] + t;
            && |u| >= end
            && u[0] == s[0] && u[1] == s[1]
            && u[2..][..end - 2] == s[2..][..end - 2]
            && u[2..][end - 2..] == s[end..][..k] + t
  {
    var u := s[..end + k] + t;
    assert u[2..][..end - 2] == u[2..end] && s[2..][..end - 2] == s[2..end];
    assert u[2..][end - 2..] == u[end..] && s[end..][..k] == s[end..end + k];
  }

  /** A frame is recognised by its own bytes alone, whatever follows them. */
  lemma FrameIsSelfDelimiting(s: seq<byte>, t: seq<byte>)
    requires ParseFrame(s).Parsed?
    ensures ParseFrame(s[..FrameLength(s)] + t) == Parsed(ParseFrame(s).frame, t)
  {
    hide ParseLength, ParseBody, TopBit, Opcode, LengthForm, LengthFieldEnd;
    var form, masked := LengthForm(s[1]), TopBit(s[1]);
    var fin, opcode := TopBit(s[0]), Opcode(s[0]);
    var n, end := ParseLength(form, s[2..]).n, LengthFieldEnd(form);
    HeaderIsLong(form);
    LengthIsLocal(form, s[2..], s[2..]);
    assert s[2..][end - 2..] == s[end..];
    BodyIsLocal(fin, opcode, masked, n, s[end..], t);
    var k := n + if masked then 4 else 0;
    assert FrameLength(s) == end + k;
    SliceAfterHeader(s, end, k, t);
    LengthIsLocal(form, s[2..], (s[..end + k] + t)[2..]);
  }

  lemma HeaderIsLong(form: byte)
    ensures LengthFieldEnd(form) >= 2
  {
  }

  /** A stream cut strictly inside a frame never yields a frame: the read fails at the end of input. */
  lemma CutFrameIsBroken(s: seq<byte>, j: nat)
    requires ParseFrame(s).Parsed? && j < FrameLength(s)
    ensures ParseFrame(s[..j]) in CutErrors()
  {
    hide ParseLength, ParseBody, TopBit, Opcode, LengthForm;
    if j >= 2 {
      var form, masked := LengthForm(s[1]), TopBit(s[1]);
      var fin, opcode := TopBit(s[0]), Opcode(s[0]);
      var u := s[..j];
      var n, end := ParseLength(form, s[2..]).n, LengthFieldEnd(form);
      LengthIsLocal(form, s[2..], u[2..]);
      if end <= j {
        assert u[2..][..end - 2] == s[2..][..end - 2];
        var body := u[2..][end - 2..];
        assert ParseFrame(u) == ParseBody(fin, opcode, masked, n, body);
        CutFrameHasShortBody(s, j);
        CutBody(fin, opcode, masked, n, body);
      } else {
        assert u[2..] <= s[2..];
      }
    }
  }

  /** Every way a frame can fail because the stream ended inside it; the input is then used up. */
  function CutErrors(): set<FrameResult> {
    {Broken(HeaderByte0, []), Broken(HeaderByte1, []), Broken(Length16, []), Broken(Length64, []),
     Broken(MaskKeyCut, []), Broken(PayloadCut, [])}
  }

  lemma CutFrameHasShortBody(s: seq<byte>, j: nat)
    requires ParseFrame(s).Parsed? && j < FrameLength(s)
    ensures var n := ParseLength(LengthForm(s[1]), s[2..]).n;
            j - LengthFieldEnd(LengthForm(s[1])) < n + if TopBit(s[1]) then 4 else 0
  {
    hide ParseLength, ParseBody, TopBit, Opcode, LengthForm;
    var form := LengthForm(s[1]);
    LengthIsLocal(form, s[2..], []);
    var n, end := ParseLength(form, s[2..]).n, LengthFieldEnd(form);
    BodyIsLocal(TopBit(s[0]), Opcode(s[0]), TopBit(s[1]), n, s[2..][end - 2..], []);
  }

  /** Lengths as in the worked examples of RFC 6455, section 5.7. */
  lemma RfcLengthExamples()
    ensures LengthField(5) == [0x85]
    ensures LengthField(256) == [0xFE, 0x01, 0x00]
    ensures LengthField(65536) == [0xFF, 0, 0, 0, 0, 0, 1, 0, 0]
  {
    ByteOfNat(5);
    assert BigEndian(256, 2) == BigEndian(1, 1) + [0];
    assert BigEndian(1, 1) == [] + [1];
    assert BigEndian(65536, 8) == BigEndian(256, 7) + [0];
    assert BigEndian(256, 7) == BigEndian(1, 6) + [0];
    assert BigEndian(1, 6) == BigEndian(0, 5) + [1];
    assert BigEndian(0, 5) == BigEndian(0, 3) + [0, 0];
    assert BigEndian(0, 3) == BigEndian(0, 1) + [0, 0];
  }

  /** The first byte of a frame: FIN and the opcode. */
  function FirstByte(fin: bool, opcode: byte): byte {
    if fin then 0x80 | opcode else opcode
  }

  lemma FirstByteBits(fin: bool, opcode: byte)
    requires opcode < 16
    ensures TopBit(FirstByte(fin, opcode)) == fin && Opcode(FirstByte(fin, opcode)) == opcode
  {
  }

  lemma PlainLength(b: byte)
    requires b < 0x80
    ensures !TopBit(b) && LengthForm(b) == b
  {
  }

  lemma PlainBody(fin: bool, opcode: byte, payload: seq<byte>, rest: seq<byte>)
    ensures ParseBody(fin, opcode, false, |payload|, payload + rest) == Parsed(Frame(fin, opcode, payload), rest)
  {
    assert (payload + rest)[..|payload|] == payload && (payload + rest)[|payload|..] == rest;
  }

  /** A header with an unmasked length, whatever the form, is followed by its payload as it is. */
  lemma PlainFrame(fin: bool, opcode: byte, form: byte, field: seq<byte>, payload: seq<byte>, rest: seq<byte>)
    requires opcode < 16 && form < 0x80
    requires ParseLength(form, field + (payload + rest)) == Length(|payload|, payload + rest)
    ensures ParseFrame([FirstByte(fin, opcode), form] + (field + (payload + rest)))
         == Parsed(Frame(fin, opcode, payload), rest)
  {
    FirstByteBits(fin, opcode);
    PlainLength(form);
    PlainBody(fin, opcode, payload, rest);
    hide ParseLength, ParseBody, TopBit, Opcode, LengthForm, FirstByte;
    assert ([FirstByte(fin, opcode), form] + (field + (payload + rest)))[2..] == field + (payload + rest);
  }

  /** What the server sends: every unmasked frame is read, here with the length in the header itself. */
  lemma ShortServerFrameIsRead(fin: bool, opcode: byte, payload: seq<byte>, rest: seq<byte>)
    requires opcode < 16 && |payload| <= 125
    ensures ParseFrame([FirstByte(fin, opcode), |payload| as byte] + (payload + rest))
         == Parsed(Frame(fin, opcode, payload), rest)
  {
    var n, tail := |payload|, payload + rest;
    ByteOfNat(n);
    ShortByte(n);
    assert [] + tail == tail;
    hide ParseFrame, FirstByte, TopBit, LengthForm;
    PlainFrame(fin, opcode, n as byte, [], payload, rest);
  }

  /** The same with a 16-bit length, be it the shortest form or not. */
  lemma MediumServerFrameIsRead(fin: bool, opcode: byte, payload: seq<byte>, rest: seq<byte>)
    requires opcode < 16 && |payload| < 0x1_0000
    ensures ParseFrame([FirstByte(fin, opcode), 126] + (BigEndian(|payload|, 2) + (payload + rest)))
         == Parsed(Frame(fin, opcode, payload), rest)
  {
    var n, tail := |payload|, payload + rest;
    MediumLength(n, tail);
    hide ParseFrame, ParseLength, FirstByte;
    PlainFrame(fin, opcode, 126, BigEndian(n, 2), payload, rest);
  }

  lemma MediumLength(n: nat, tail: seq<byte>)
    requires n < 0x1_0000
    ensures ParseLength(126, BigEndian(n, 2) + tail) == Length(n, tail)
  {
    Capacities();
    BigEndianRoundTrip(n, 2);
    hide BigEndian, FromBigEndian, Capacity;
    assert (BigEndian(n, 2) + tail)[..2] == BigEndian(n, 2) && (BigEndian(n, 2) + tail)[2..] == tail;
  }

  /** The same with a 64-bit length. */
  lemma LongServerFrameIsRead(fin: bool, opcode: byte, payload: seq<byte>, rest: seq<byte>)
    requires opcode < 16 && |payload| <= MAX_INT64
    ensures ParseFrame([FirstByte(fin, opcode), 127] + (BigEndian(|payload|, 8) + (payload + rest)))
         == Parsed(Frame(fin, opcode, payload), rest)
  {
    var n, tail := |payload|, payload + rest;
    LongLength(n, tail);
    hide ParseFrame, ParseLength, FirstByte;
    PlainFrame(fin, opcode, 127, BigEndian(n, 8), payload, rest);
  }

  lemma LongLength(n: nat, tail: seq<byte>)
    requires n <= MAX_INT64
    ensures ParseLength(127, BigEndian(n, 8) + tail) == Length(n, tail)
  {
    Capacities();
    BigEndianRoundTrip(n, 8);
    hide BigEndian, FromBigEndian, Capacity;
    assert (BigEndian(n, 8) + tail)[..8] == BigEndian(n, 8) && (BigEndian(n, 8) + tail)[8..] == tail;
  }

  /** A 64-bit length beyond an int64 is refused right after the length field, masked or not. */
  lemma OverlongLengthIsRefused(b0: byte, b1: byte, n: nat, rest: seq<byte>)
    requires b1 == 127 || b1 == 0xFF
    requires MAX_INT64 < n < 0x1_0000_0000_0000_0000
    ensures ParseFrame([b0, b1] + (BigEndian(n, 8) + rest)) == Broken(LengthOverflow(n), rest)
  {
    Capacities();
    BigEndianRoundTrip(n, 8);
    assert LengthForm(b1) == 127;
    hide BigEndian, FromBigEndian, Capacity, LengthForm;
    assert (BigEndian(n, 8) + rest)[..8] == BigEndian(n, 8) && (BigEndian(n, 8) + rest)[8..] == rest;
    assert ([b0, b1] + (BigEndian(n, 8) + rest))[2..] == BigEndian(n, 8) + rest;
  }

  lemma ShortByte(n: nat)
    requires n <= 125
    ensures n as byte < 0x80 && n as byte != 126 && n as byte != 127
  {
    ByteOfNat(n);
  }

  // ------------------------------------------------------------------ writing

  /** One `writeFrame`: draws a key, then writes as much of the frame as the peer accepts. */
  function Write(out: Outbound, opcode: byte, payload: seq<byte>): (Outbound, WriteResult)
    requires |payload| <= MAX_INT64
  {
    if out.keys == [] then (out, Unsent(NoEntropy))
    else
      var frame := EncodeFrame(opcode, payload, out.keys[0]);
      if |frame| <= out.room then
        (Outbound(out.sent + frame, out.keys[1..], out.room - |frame|), Sent)
      else
        (Outbound(out.sent + frame[..out.room], out.keys[1..], 0), Unsent(WriteFailed))
  }

  // ------------------------------------------------------------------ reading

  predicate IsData(opcode: byte) {
    opcode == OP_TEXT || opcode == OP_BINARY || opcode == OP_CONTINUATION
  }

  /** The payload of a parsed frame was announced by a length that fits an int64. */
  lemma PayloadFits(s: seq<byte>)
    ensures ParseFrame(s).Parsed? ==> |ParseFrame(s).frame.payload| <= MAX_INT64
  {
    Capacities();
    if ParseFrame(s).Parsed? && LengthForm(s[1]) == 126 {
      assert FromBigEndian(s[2..][..2]) < Capacity(2);
    }
  }

  /** What `ReadText` does from here on, with `payload` collected so far. */
  function ReadTextFrom(input: seq<byte>, out: Outbound, payload: seq<byte>): ReadOutcome
    decreases |input|
  {
    match ParseFrame(input)
    case Broken(e, rest) => ReadOutcome(FrameError(e), rest, out)
    case Parsed(f, rest) =>
      PayloadFits(input);
      if f.opcode == OP_CLOSE then ReadOutcome(Eof, rest, Write(out, OP_CLOSE, []).0)
      else if f.opcode == OP_PING then
        match Write(out, OP_PONG, f.payload)
        case (out', Sent) => ReadTextFrom(rest, out', payload)
        case (out', Unsent(e)) => ReadOutcome(PongError(e), rest, out')
      else if IsData(f.opcode) then
        if f.fin then ReadOutcome(Text(payload + f.payload), rest, out)
        else ReadTextFrom(rest, out, payload + f.payload)
      else ReadTextFrom(rest, out, payload)
  }

  lemma FrameIsAPrefix(s: seq<byte>)
    requires ParseFrame(s).Parsed?
    ensures s == s[..FrameLength(s)] + ParseFrame(s).rest && 2 <= FrameLength(s)
  {
  }

  // -------------------------------------------------------- whole messages

  /** `bytes` is one of the encodings of `f`: any length form, masked or not. */
  predicate Encodes(bytes: seq<byte>, f: Frame) {
    ParseFrame(bytes) == Parsed(f, [])
  }

  predicate AllEncode(es: seq<seq<byte>>, fs: seq<Frame>) {
    |es| == |fs| && forall i :: 0 <= i < |es| ==> Encodes(es[i], fs[i])
  }

  /** A continuation, text or binary frame. */
  predicate IsFragment(f: Frame) {
    f.opcode == 0x0 || f.opcode == 0x1 || f.opcode == 0x2
  }

  /** A reserved opcode, a Ping or a Pong. */
  predicate StandsBeside(f: Frame) {
    0x3 <= f.opcode <= 0x7 || 0x9 <= f.opcode <= 0xF
  }

  /** Neither the end of the message nor of the connection. */
  predicate Unfinished(f: Frame) {
    StandsBeside(f) || (IsFragment(f) && !f.fin)
  }

  predicate AllUnfinished(fs: seq<Frame>) {
    forall i :: 0 <= i < |fs| ==> Unfinished(fs[i])
  }

  /** The frame that completes a message. */
  predicate Completes(f: Frame) {
    IsFragment(f) && f.fin
  }

  /** The fragments of the message, without what stands beside it. */
  function Fragments(fs: seq<Frame>): seq<seq<byte>> {
    if fs == [] then []
    else (if IsFragment(fs[0]) then [fs[0].payload] else []) + Fragments(fs[1..])
  }

  function Pings(fs: seq<Frame>): seq<seq<byte>> {
    if fs == [] then []
    else (if fs[0].opcode == 0x9 then [fs[0].payload] else []) + Pings(fs[1..])
  }

  /** The four-bit opcodes, as the read loop tells them apart. */
  lemma OpcodesSortFrames(f: Frame)
    requires f.opcode < 16
    ensures IsFragment(f) <==> IsData(f.opcode)
    ensures f.opcode == 0x8 <==> f.opcode == OP_CLOSE
    ensures f.opcode == 0x9 <==> f.opcode == OP_PING
    ensures Unfinished(f) <==> f.opcode != OP_CLOSE && !(IsData(f.opcode) && f.fin)
  {
  }

  lemma OpcodeIsShort(s: seq<byte>)
    ensures ParseFrame(s).Parsed? ==> ParseFrame(s).frame.opcode < 16
  {
  }

  predicate Short(payloads: seq<seq<byte>>) {
    forall i :: 0 <= i < |payloads| ==> |payloads[i]| <= MAX_INT64
  }

  /** Frames with one opcode and the given payloads, each under the next key. */
  function Stream(opcode: byte, payloads: seq<seq<byte>>, keys: seq<Key>): seq<byte>
    requires Short(payloads) && |payloads| <= |keys|
  {
    if payloads == [] then []
    else EncodeFrame(opcode, payloads[0], keys[0]) + Stream(opcode, payloads[1..], keys[1..])
  }

  predicate CanSend(out: Outbound, opcode: byte, payloads: seq<seq<byte>>) {
    Short(payloads) && |payloads| <= |out.keys| && |Stream(opcode, payloads, out.keys)| <= out.room
  }

  /** The sending half after all of `payloads` went out. */
  function AfterSending(out: Outbound, opcode: byte, payloads: seq<seq<byte>>): Outbound
    requires CanSend(out, opcode, payloads)
  {
    var s := Stream(opcode, payloads, out.keys);
    Outbound(out.sent + s, out.keys[|payloads|..], out.room - |s|)
  }

  lemma SendOne(out: Outbound, opcode: byte, payloads: seq<seq<byte>>)
    requires CanSend(out, opcode, payloads) && payloads != []
    ensures Write(out, opcode, payloads[0]).1 == Sent
    ensures CanSend(Write(out, opcode, payloads[0]).0, opcode, payloads[1..])
    ensures AfterSending(Write(out, opcode, payloads[0]).0, opcode, payloads[1..]) == AfterSending(out, opcode, payloads)
  {
    hide EncodeFrame;
    var frame := EncodeFrame(opcode, payloads[0], out.keys[0]);
    var tail := Stream(opcode, payloads[1..], out.keys[1..]);
    assert Stream(opcode, payloads, out.keys) == frame + tail;
    assert (out.sent + frame) + tail == out.sent + (frame + tail);
  }

  /** An encoded frame is read off the front of any stream. */
  lemma StepOver(e: seq<byte>, f: Frame, rest: seq<byte>)
    requires Encodes(e, f)
    ensures ParseFrame(e + rest) == Parsed(f, rest)
  {
    hide ParseLength, ParseBody, TopBit, Opcode, LengthForm;
    FrameIsSelfDelimiting(e, rest);
    assert e[..FrameLength(e)] == e;
  }

  function DataPart(f: Frame): seq<byte> {
    if IsFragment(f) then f.payload else []
  }

  lemma FragmentsGrow(f: Frame, fs: seq<Frame>)
    ensures Concat(Fragments([f] + fs)) == DataPart(f) + Concat(Fragments(fs))
    ensures Concat(Fragments(fs + [f])) == Concat(Fragments(fs)) + DataPart(f)
  {
    assert ([f] + fs)[1..] == fs;
    if IsFragment(f) {
      assert ([f.payload] + Fragments(fs))[1..] == Fragments(fs);
    } else {
      assert [] + Fragments(fs) == Fragments(fs);
    }
    FragmentsAppend(fs, f);
  }

  lemma {:induction false} FragmentsAppend(fs: seq<Frame>, f: Frame)
    ensures Concat(Fragments(fs + [f])) == Concat(Fragments(fs)) + DataPart(f)
  {
    hide IsFragment;
    if fs == [] {
      assert fs + [f] == [f] && [f][1..] == [];
      assert Fragments([]) == [];
      if IsFragment(f) { assert Fragments([f]) == [f.payload] && [f.payload][1..] == []; }
    } else {
      assert (fs + [f])[1..] == fs[1..] + [f];
      FragmentsAppend(fs[1..], f);
      var rest, all := Fragments(fs[1..]), Fragments(fs[1..] + [f]);
      if IsFragment(fs[0]) {
        assert ([fs[0].payload] + rest)[1..] == rest && ([fs[0].payload] + all)[1..] == all;
      } else {
        assert [] + rest == rest && [] + all == all;
      }
    }
  }

  /** The sending half once a frame has been dealt with. */
  function AfterFrame(out: Outbound, f: Frame): Outbound
    requires |f.payload| <= MAX_INT64
  {
    if f.opcode == OP_PING then Write(out, OP_PONG, f.payload).0 else out
  }

  /** A frame inside a message adds its data, if it has any, and the reader goes on. */
  lemma ReadStep(input: seq<byte>, f: Frame, rest: seq<byte>, out: Outbound, payload: seq<byte>)
    requires ParseFrame(input) == Parsed(f, rest)
    requires Unfinished(f) && |f.payload| <= MAX_INT64
    requires f.opcode == 0x9 ==> Write(out, OP_PONG, f.payload).1 == Sent
    ensures ReadTextFrom(input, out, payload)
         == ReadTextFrom(rest, AfterFrame(out, f), payload + DataPart(f))
  {
    OpcodeIsShort(input);
    OpcodesSortFrames(f);
    hide ParseFrame, Write, IsFragment, Unfinished, IsData;
    assert payload + [] == payload;
  }

  lemma AnswerPing(out: Outbound, fs: seq<Frame>)
    requires fs != [] && |fs[0].payload| <= MAX_INT64
    requires CanSend(out, 0xA, Pings(fs))
    ensures fs[0].opcode == 0x9 ==> Write(out, OP_PONG, fs[0].payload).1 == Sent
    ensures CanSend(AfterFrame(out, fs[0]), 0xA, Pings(fs[1..]))
    ensures AfterSending(AfterFrame(out, fs[0]), 0xA, Pings(fs[1..])) == AfterSending(out, 0xA, Pings(fs))
  {
    hide Write, Stream, AfterSending, CanSend;
    if fs[0].opcode == 0x9 {
      SendOne(out, 0xA, Pings(fs));
      assert Pings(fs)[1..] == Pings(fs[1..]);
    } else {
      assert Pings(fs) == Pings(fs[1..]);
    }
  }

  /** Frames that neither end the message nor the connection leave their data and their Pongs behind. */
  lemma {:induction false} ContinuingFramesAreConsumed(
    es: seq<seq<byte>>, fs: seq<Frame>, rest: seq<byte>, out: Outbound, payload: seq<byte>)
    requires AllEncode(es, fs) && AllUnfinished(fs)
    requires CanSend(out, 0xA, Pings(fs))
    ensures ReadTextFrom(Concat(es) + rest, out, payload)
         == ReadTextFrom(rest, AfterSending(out, 0xA, Pings(fs)), payload + Concat(Fragments(fs)))
    decreases |es|
  {
    hide ParseFrame, Write, Stream, AfterSending, CanSend, ReadTextFrom, AfterFrame, DataPart, Unfinished, IsFragment;
    if es == [] {
      assert Pings([]) == [] && Fragments([]) == [];
      SendNone(out, 0xA);
      assert Concat(es) + rest == rest && payload + [] == payload;
    } else {
      hide Pings, Fragments;
      var f, tail := fs[0], Concat(es[1..]) + rest;
      assert Concat(es) + rest == es[0] + tail;
      assert Encodes(es[0], f) && Unfinished(f);
      StepOver(es[0], f, tail);
      EncodedPayloadFits(es[0], f);
      AnswerPing(out, fs);
      ReadStep(es[0] + tail, f, tail, out, payload);
      ContinuingFramesAreConsumed(es[1..], fs[1..], rest, AfterFrame(out, f), payload + DataPart(f));
      FragmentsGrow(f, fs[1..]);
      assert [f] + fs[1..] == fs;
      var data := Concat(Fragments(fs[1..]));
      assert payload + (DataPart(f) + data) == (payload + DataPart(f)) + data;
    }
  }

  /**
   Reassembly. However a message is cut into fragments, however each frame is encoded and wherever
   control frames stand between the fragments, one `ReadText` returns exactly the concatenated
   fragments, stops right after the FIN frame and answers each Ping, in order, with one masked Pong
   that carries the same payload.
   */
  lemma MessageIsReassembled(
    es: seq<seq<byte>>, fs: seq<Frame>, e: seq<byte>, f: Frame, rest: seq<byte>, out: Outbound)
    requires AllEncode(es, fs) && AllUnfinished(fs)
    requires Encodes(e, f) && Completes(f)
    requires CanSend(out, 0xA, Pings(fs))
    ensures ReadTextFrom(Concat(es) + (e + rest), out, [])
         == ReadOutcome(Text(Concat(Fragments(fs + [f]))), rest, AfterSending(out, 0xA, Pings(fs)))
  {
    hide ParseFrame, Write, Stream, AfterSending, CanSend, ReadTextFrom, Pings, Fragments, Unfinished;
    ContinuingFramesAreConsumed(es, fs, e + rest, out, []);
    StepOver(e, f, rest);
    assert [] + Concat(Fragments(fs)) == Concat(Fragments(fs));
    FinalFrame(e + rest, f, rest, AfterSending(out, 0xA, Pings(fs)), Concat(Fragments(fs)));
    FragmentsGrow(f, fs);
  }

  /** Continuation frames without FIN and then one with it, among control frames and reserved opcodes. */
  predicate Continuations(fs: seq<Frame>) {
    fs != []
    && if StandsBeside(fs[0]) then Continuations(fs[1..])
       else fs[0].opcode == 0x0 && if fs[0].fin then |fs| == 1 else Continuations(fs[1..])
  }

  /** A message as RFC 6455, section 5.4, has it: a text or binary frame, then continuations until FIN. */
  predicate IsMessage(fs: seq<Frame>) {
    fs != []
    && if StandsBeside(fs[0]) then IsMessage(fs[1..])
       else (fs[0].opcode == 0x1 || fs[0].opcode == 0x2) && if fs[0].fin then |fs| == 1 else Continuations(fs[1..])
  }

  lemma {:induction false} MessageEndsWithFin(fs: seq<Frame>)
    requires IsMessage(fs) || Continuations(fs)
    ensures fs != [] && AllUnfinished(fs[..|fs| - 1]) && Completes(fs[|fs| - 1])
  {
    if |fs| > 1 {
      MessageEndsWithFin(fs[1..]);
      assert fs[..|fs| - 1] == [fs[0]] + fs[1..][..|fs| - 2];
    } else {
      assert fs[1..] == [] && !IsMessage([]) && !Continuations([]);
    }
  }

  /** Every message of the standard is read as its payloads, one after the other. */
  lemma StandardMessageIsRead(es: seq<seq<byte>>, fs: seq<Frame>, rest: seq<byte>, out: Outbound)
    requires AllEncode(es, fs) && IsMessage(fs)
    requires CanSend(out, 0xA, Pings(fs[..|fs| - 1]))
    ensures ReadTextFrom(Concat(es) + rest, out, [])
         == ReadOutcome(Text(Concat(Fragments(fs))), rest, AfterSending(out, 0xA, Pings(fs[..|fs| - 1])))
  {
    hide ParseFrame, AfterSending, CanSend, ReadTextFrom, Pings, Fragments, IsMessage, Unfinished, Completes;
    MessageEndsWithFin(fs);
    var n := |fs| - 1;
    assert fs[..n] + [fs[n]] == fs;
    ConcatSplits(es, n);
    assert Concat(es[..n]) + (es[n] + rest) == Concat(es) + rest;
    MessageIsReassembled(es[..n], fs[..n], es[n], fs[n], rest, out);
  }

  lemma {:induction false} ConcatSplits(es: seq<seq<byte>>, n: nat)
    requires |es| == n + 1
    ensures Concat(es) == Concat(es[..n]) + es[n]
  {
    if n == 0 {
      assert es[1..] == [];
    } else {
      ConcatSplits(es[1..], n - 1);
      assert es[..n][1..] == es[1..][..n - 1];
    }
  }

  /** A Close anywhere in a message ends the read, is echoed once if it can be, and yields no partial text. */
  lemma CloseEndsTheRead(
    es: seq<seq<byte>>, fs: seq<Frame>, e: seq<byte>, f: Frame, rest: seq<byte>, out: Outbound)
    requires AllEncode(es, fs) && AllUnfinished(fs)
    requires Encodes(e, f) && f.opcode == 0x8
    requires CanSend(out, 0xA, Pings(fs))
    ensures var r := ReadTextFrom(Concat(es) + (e + rest), out, []);
            var answered := AfterSending(out, 0xA, Pings(fs));
            && r.result == Eof && r.input == rest
            && r.out == Write(answered, OP_CLOSE, []).0
            && (answered.keys != [] && answered.room >= 6 ==>
                  r.out.sent == answered.sent + ([0x88, 0x80] + answered.keys[0]))
  {
    ContinuingFramesAreConsumed(es, fs, e + rest, out, []);
    StepOver(e, f, rest);
    var answered := AfterSending(out, 0xA, Pings(fs));
    if answered.keys != [] { CloseFrameBytes(answered.keys[0]); }
    hide ParseFrame, Stream, AfterSending, CanSend, EncodeFrame;
  }

  lemma CloseFrameBytes(key: Key)
    ensures EncodeFrame(OP_CLOSE, [], key) == [0x88, 0x80] + key
  {
    assert Mask([], key) == [];
    ByteOfNat(0);
  }

  /** A Ping that cannot be answered ends the read with the reason, right after that Ping. */
  lemma UnansweredPingEndsTheRead(
    es: seq<seq<byte>>, fs: seq<Frame>, e: seq<byte>, f: Frame, rest: seq<byte>, out: Outbound)
    requires AllEncode(es, fs) && AllUnfinished(fs)
    requires Encodes(e, f) && f.opcode == 0x9 && |f.payload| <= MAX_INT64
    requires CanSend(out, 0xA, Pings(fs))
    requires var answered := AfterSending(out, 0xA, Pings(fs));
             answered.keys != [] ==> answered.room < |EncodeFrame(0xA, f.payload, answered.keys[0])|
    ensures var r := ReadTextFrom(Concat(es) + (e + rest), out, []);
            var answered := AfterSending(out, 0xA, Pings(fs));
            && r.input == rest
            && r.result == PongError(if answered.keys == [] then NoEntropy else WriteFailed)
            && r.out.sent == answered.sent +
                 if answered.keys == [] then [] else EncodeFrame(0xA, f.payload, answered.keys[0])[..answered.room]
  {
    ContinuingFramesAreConsumed(es, fs, e + rest, out, []);
    StepOver(e, f, rest);
    var answered := AfterSending(out, 0xA, Pings(fs));
    assert answered.sent + [] == answered.sent;
    hide ParseFrame, AfterSending, EncodeFrame, Pings, CanSend;
  }

  /** A frame that cannot be read ends the read with the reason; no partial text comes out. */
  lemma BrokenFrameEndsTheRead(es: seq<seq<byte>>, fs: seq<Frame>, tail: seq<byte>, out: Outbound)
    requires AllEncode(es, fs) && AllUnfinished(fs) && ParseFrame(tail).Broken?
    requires CanSend(out, 0xA, Pings(fs))
    ensures ReadTextFrom(Concat(es) + tail, out, [])
         == ReadOutcome(FrameError(ParseFrame(tail).error), ParseFrame(tail).rest, AfterSending(out, 0xA, Pings(fs)))
  {
    ContinuingFramesAreConsumed(es, fs, tail, out, []);
    hide ParseFrame, AfterSending, CanSend;
  }

  lemma EncodedPayloadFits(e: seq<byte>, f: Frame)
    requires Encodes(e, f)
    ensures |f.payload| <= MAX_INT64
  {
    PayloadFits(e);
  }

  lemma SendNone(out: Outbound, opcode: byte)
    requires CanSend(out, opcode, [])
    ensures AfterSending(out, opcode, []) == out
  {
    assert out.sent + [] == out.sent;
  }

  lemma FinalFrame(input: seq<byte>, f: Frame, rest: seq<byte>, out: Outbound, payload: seq<byte>)
    requires ParseFrame(input) == Parsed(f, rest) && Completes(f)
    ensures ReadTextFrom(input, out, payload) == ReadOutcome(Text(payload + f.payload), rest, out)
  {
    OpcodeIsShort(input);
    OpcodesSortFrames(f);
    hide ParseFrame, Write, IsData, IsFragment;
  }

  /**
   The converse: whenever `ReadText` returns a text, the bytes it consumed are encoded frames that
   form one message, and the text is their data.
   */
  lemma {:induction false} TextComesFromMessage(input: seq<byte>, out: Outbound, payload: seq<byte>)
    returns (es: seq<seq<byte>>, fs: seq<Frame>, e: seq<byte>, f: Frame)
    requires ReadTextFrom(input, out, payload).result.Text?
    ensures AllEncode(es, fs) && AllUnfinished(fs) && Encodes(e, f) && Completes(f)
    ensures input == Concat(es) + (e + ReadTextFrom(input, out, payload).input)
    ensures ReadTextFrom(input, out, payload).result.text == payload + Concat(Fragments(fs + [f]))
    decreases |input|
  {
    var head, first, rest := FirstOfText(input, out, payload);
    hide ParseFrame, Write, ReadTextFrom, Fragments, IsFragment, Unfinished, IsData, Encodes, AfterFrame, DataPart;
    if Completes(first) {
      es, fs, e, f := [], [], head, first;
      FragmentsGrow(f, []);
      assert input == [] + (e + rest) && [] + [f] == [f];
      NoFragments();
      assert [] + f.payload == f.payload;
    } else {
      var es', fs';
      es', fs', e, f := TextComesFromMessage(rest, AfterFrame(out, first), payload + DataPart(first));
      es, fs := [head] + es', [first] + fs';
      FrontFrame(head, first, es', fs', e + ReadTextFrom(input, out, payload).input);
      FrontData(first, fs', f, payload);
      hide Completes, AllEncode, AllUnfinished, Concat;
    }
  }

  lemma FrontData(first: Frame, fs: seq<Frame>, f: Frame, payload: seq<byte>)
    ensures payload + Concat(Fragments(([first] + fs) + [f]))
         == (payload + DataPart(first)) + Concat(Fragments(fs + [f]))
  {
    hide Fragments, DataPart, Concat;
    FragmentsGrow(first, fs + [f]);
    assert ([first] + fs) + [f] == [first] + (fs + [f]);
    var data := Concat(Fragments(fs + [f]));
    assert payload + (DataPart(first) + data) == (payload + DataPart(first)) + data;
  }

  lemma NoFragments()
    ensures Concat(Fragments([])) == []
  {
  }

  /** The first frame of a read that ends in a text, and how the read goes on after it. */
  lemma FirstOfText(input: seq<byte>, out: Outbound, payload: seq<byte>)
    returns (head: seq<byte>, f: Frame, rest: seq<byte>)
    requires ReadTextFrom(input, out, payload).result.Text?
    ensures Encodes(head, f) && input == head + rest && |rest| < |input| && |f.payload| <= MAX_INT64
    ensures Completes(f) ==> ReadTextFrom(input, out, payload) == ReadOutcome(Text(payload + f.payload), rest, out)
    ensures !Completes(f) ==>
              && Unfinished(f)
              && ReadTextFrom(input, out, payload) == ReadTextFrom(rest, AfterFrame(out, f), payload + DataPart(f))
  {
    OpcodeIsShort(input);
    TextStartsWithFrame(input, out, payload);
    OpcodesSortFrames(ParseFrame(input).frame);
    FrameIsAPrefix(input);
    FrameIsSelfDelimiting(input, []);
    hide ParseFrame, Write, ReadTextFrom, IsFragment, Unfinished, IsData;
    f, rest := ParseFrame(input).frame, ParseFrame(input).rest;
    head := input[..FrameLength(input)];
    assert head + [] == head && Encodes(head, f);
    if Completes(f) {
      FinalFrame(input, f, rest, out, payload);
    } else {
      ReadStep(input, f, rest, out, payload);
    }
  }

  lemma FrontFrame(e: seq<byte>, f: Frame, es: seq<seq<byte>>, fs: seq<Frame>, rest: seq<byte>)
    requires AllEncode(es, fs) && AllUnfinished(fs) && Encodes(e, f) && Unfinished(f)
    ensures AllEncode([e] + es, [f] + fs) && AllUnfinished([f] + fs)
    ensures Concat([e] + es) + rest == e + (Concat(es) + rest)
  {
    hide Encodes, Unfinished;
    assert ([e] + es)[1..] == es;
    assert e + Concat(es) + rest == e + (Concat(es) + rest);
  }

  /** A read that ends in a text began with a frame that is neither broken nor a Close, its Pong sent. */
  lemma TextStartsWithFrame(input: seq<byte>, out: Outbound, payload: seq<byte>)
    requires ReadTextFrom(input, out, payload).result.Text?
    ensures ParseFrame(input).Parsed?
    ensures var f := ParseFrame(input).frame;
            && f.opcode != OP_CLOSE
            && |f.payload| <= MAX_INT64
            && (f.opcode == OP_PING ==> Write(out, OP_PONG, f.payload).1 == Sent)
  {
    PayloadFits(input);
    hide ParseFrame, Write;
  }

  // ------------------------------------------ the examples of RFC 6455, section 5.7

  const HELLO: seq<byte> := [0x48, 0x65, 0x6C, 0x6C, 0x6F]
  const RFC_KEY: Key := [0x37, 0xFA, 0x21, 0x3D]
  const MASKED_HELLO: seq<byte> := [0x7F, 0x9F, 0x4D, 0x51, 0x58]

  lemma RfcMask()
    ensures Mask(HELLO, RFC_KEY) == MASKED_HELLO && Mask(MASKED_HELLO, RFC_KEY) == HELLO
  {
    var m := Mask(HELLO, RFC_KEY);
    assert m[0] == 0x7F && m[1] == 0x9F && m[2] == 0x4D && m[3] == 0x51 && m[4] == 0x58;
    MaskTwice(HELLO, RFC_KEY);
  }

  /** A text frame and a Pong, as this client writes them. */
  lemma RfcWrittenFrames()
    ensures EncodeFrame(0x1, HELLO, RFC_KEY) == [0x81, 0x85, 0x37, 0xFA, 0x21, 0x3D, 0x7F, 0x9F, 0x4D, 0x51, 0x58]
    ensures EncodeFrame(0xA, HELLO, RFC_KEY) == [0x8A, 0x85, 0x37, 0xFA, 0x21, 0x3D, 0x7F, 0x9F, 0x4D, 0x51, 0x58]
  {
    RfcMask();
    RfcLengthExamples();
    hide Mask, LengthField;
    assert 0x80 | (0x1 as byte) == 0x81 && 0x80 | (0xA as byte) == 0x8A;
  }

  lemma RfcMaskedText()
    ensures ParseFrame([0x81, 0x85, 0x37, 0xFA, 0x21, 0x3D, 0x7F, 0x9F, 0x4D, 0x51, 0x58])
         == Parsed(Frame(true, 0x1, HELLO), [])
  {
    RfcWrittenFrames();
    FrameRoundTrip(0x1, HELLO, RFC_KEY, []);
    hide ParseFrame, EncodeFrame;
    var e := EncodeFrame(0x1, HELLO, RFC_KEY);
    assert e + [] == e;
  }

  /** An unmasked text, a masked text, the fragments of a text, and a Ping. */
  lemma RfcReadFrames()
    ensures ParseFrame([0x81, 0x05, 0x48, 0x65, 0x6C, 0x6C, 0x6F]) == Parsed(Frame(true, 0x1, HELLO), [])
    ensures ParseFrame([0x81, 0x85, 0x37, 0xFA, 0x21, 0x3D, 0x7F, 0x9F, 0x4D, 0x51, 0x58])
         == Parsed(Frame(true, 0x1, HELLO), [])
    ensures ParseFrame([0x01, 0x03, 0x48, 0x65, 0x6C]) == Parsed(Frame(false, 0x1, HELLO[..3]), [])
    ensures ParseFrame([0x80, 0x02, 0x6C, 0x6F]) == Parsed(Frame(true, 0x0, HELLO[3..]), [])
    ensures ParseFrame([0x89, 0x05, 0x48, 0x65, 0x6C, 0x6C, 0x6F]) == Parsed(Frame(true, 0x9, HELLO), [])
  {
    hide ParseFrame, FirstByte;
    RfcMaskedText();
    RfcFirstBytes();
    RfcShortFrame(0x81, true, 0x1, HELLO, [0x81, 0x05, 0x48, 0x65, 0x6C, 0x6C, 0x6F]);
    RfcShortFrame(0x89, true, 0x9, HELLO, [0x89, 0x05, 0x48, 0x65, 0x6C, 0x6C, 0x6F]);
    RfcFragmentFrames();
  }

  lemma RfcFragmentFrames()
    ensures ParseFrame([0x01, 0x03, 0x48, 0x65, 0x6C]) == Parsed(Frame(false, 0x1, HELLO[..3]), [])
    ensures ParseFrame([0x80, 0x02, 0x6C, 0x6F]) == Parsed(Frame(true, 0x0, HELLO[3..]), [])
  {
    RfcFirstBytes();
    hide ParseFrame, FirstByte;
    RfcShortFrame(0x01, false, 0x1, HELLO[..3], [0x01, 0x03, 0x48, 0x65, 0x6C]);
    RfcShortFrame(0x80, true, 0x0, HELLO[3..], [0x80, 0x02, 0x6C, 0x6F]);
  }

  lemma RfcFirstBytes()
    ensures FirstByte(true, 0x1) == 0x81 && FirstByte(false, 0x1) == 0x01
    ensures FirstByte(true, 0x0) == 0x80 && FirstByte(true, 0x9) == 0x89
  {
  }

  lemma RfcShortFrame(first: byte, fin: bool, opcode: byte, payload: seq<byte>, bytes: seq<byte>)
    requires opcode < 16 && |payload| <= 125 && first == FirstByte(fin, opcode)
    requires bytes == [first, |payload| as byte] + payload
    ensures ParseFrame(bytes) == Parsed(Frame(fin, opcode, payload), [])
  {
    hide ParseFrame, FirstByte;
    ShortServerFrameIsRead(fin, opcode, payload, []);
    assert payload + [] == payload;
  }

  /** The two fragments of "Hello" with a Ping between them: one text, one Pong under the client's key. */
  lemma RfcFragmentsAreRead()
    ensures ReadTextFrom(
              [0x01, 0x03, 0x48, 0x65, 0x6C] + [0x89, 0x05, 0x48, 0x65, 0x6C, 0x6C, 0x6F] + [0x80, 0x02, 0x6C, 0x6F],
              Outbound([], [RFC_KEY], 11), [])
         == ReadOutcome(Text(HELLO), [], Outbound(
              [0x8A, 0x85, 0x37, 0xFA, 0x21, 0x3D, 0x7F, 0x9F, 0x4D, 0x51, 0x58], [], 0))
  {
    RfcReadFrames();
    RfcWrittenFrames();
    hide ParseFrame, EncodeFrame, ReadTextFrom;
    var a: seq<byte> := [0x01, 0x03, 0x48, 0x65, 0x6C];
    var b: seq<byte> := [0x89, 0x05, 0x48, 0x65, 0x6C, 0x6C, 0x6F];
    var c: seq<byte> := [0x80, 0x02, 0x6C, 0x6F];
    var es, fs := [a, b, c], [Frame(false, 0x1, HELLO[..3]), Frame(true, 0x9, HELLO), Frame(true, 0x0, HELLO[3..])];
    var out := Outbound([], [RFC_KEY], 11);
    assert fs[1..] == [fs[1], fs[2]] && fs[1..][1..] == [fs[2]] && fs[..2] == [fs[0], fs[1]];
    assert es[1..] == [b, c] && es[1..][1..] == [c] && [c][1..] == [];
    assert Concat([c]) == c + [] && Concat([b, c]) == b + Concat([c]) && Concat(es) == a + Concat([b, c]);
    assert Concat(es) + [] == a + b + c;
    RfcPing(fs, out);
    RfcIsMessage(fs);
    assert AllEncode(es, fs);
    hide IsMessage, AllEncode;
    StandardMessageIsRead(es, fs, [], out);
    RfcFragments(fs);
  }

  lemma RfcIsMessage(fs: seq<Frame>)
    requires fs == [Frame(false, 0x1, HELLO[..3]), Frame(true, 0x9, HELLO), Frame(true, 0x0, HELLO[3..])]
    ensures IsMessage(fs)
  {
    assert fs[1..] == [fs[1], fs[2]] && fs[1..][1..] == [fs[2]];
    assert Continuations([fs[2]]) && Continuations(fs[1..]);
  }

  lemma RfcPing(fs: seq<Frame>, out: Outbound)
    requires fs == [Frame(false, 0x1, HELLO[..3]), Frame(true, 0x9, HELLO), Frame(true, 0x0, HELLO[3..])]
    requires out == Outbound([], [RFC_KEY], 11)
    ensures CanSend(out, 0xA, Pings(fs[..2]))
    ensures AfterSending(out, 0xA, Pings(fs[..2])) == Outbound(EncodeFrame(0xA, HELLO, RFC_KEY), [], 0)
  {
    RfcWrittenFrames();
    hide EncodeFrame;
    var head := fs[..2];
    assert head[1..] == [fs[1]] && [fs[1]][1..] == [];
    assert Pings([fs[1]]) == [HELLO] && Pings(head) == [HELLO];
    var frame := EncodeFrame(0xA, HELLO, RFC_KEY);
    assert [HELLO][1..] == [] && Stream(0xA, [HELLO], [RFC_KEY]) == frame + [];
    assert [] + (frame + []) == frame;
  }

  lemma RfcFragments(fs: seq<Frame>)
    requires fs == [Frame(false, 0x1, HELLO[..3]), Frame(true, 0x9, HELLO), Frame(true, 0x0, HELLO[3..])]
    ensures Concat(Fragments(fs)) == HELLO
  {
    var a, b := HELLO[..3], HELLO[3..];
    assert fs[1..] == [fs[1], fs[2]] && fs[1..][1..] == [fs[2]] && [fs[2]][1..] == [];
    assert Fragments([fs[2]]) == [b] && Fragments(fs[1..]) == [b] && Fragments(fs) == [a, b];
    assert [a, b][1..] == [b] && [b][1..] == [];
    assert Concat([b]) == b && Concat([a, b]) == a + b;
  }

  // -------------------------------------------------------- lists of texts

  /** Successive `WriteText` calls. */
  function WriteTexts(out: Outbound, texts: seq<seq<byte>>): Outbound
    requires Short(texts)
    decreases |texts|
  {
    if texts == [] then out else WriteTexts(Write(out, OP_TEXT, texts[0]).0, texts[1..])
  }

  /** `n` successive `ReadText` calls: their results, and the outcome of the last. */
  function ReadTexts(input: seq<byte>, out: Outbound, n: nat): (seq<TextResult>, seq<byte>, Outbound)
    decreases n
  {
    if n == 0 then ([], input, out)
    else
      var first := ReadTextFrom(input, out, []);
      var (results, input', out') := ReadTexts(first.input, first.out, n - 1);
      ([first.result] + results, input', out')
  }

  function TextsRead(texts: seq<seq<byte>>): seq<TextResult> {
    seq(|texts|, i requires 0 <= i < |texts| => Text(texts[i]))
  }

  lemma {:induction false} TextsAreSent(out: Outbound, texts: seq<seq<byte>>)
    requires CanSend(out, OP_TEXT, texts)
    ensures WriteTexts(out, texts) == AfterSending(out, OP_TEXT, texts)
    decreases |texts|
  {
    if texts == [] {
      assert out.sent + [] == out.sent;
    } else {
      SendOne(out, OP_TEXT, texts);
      TextsAreSent(Write(out, OP_TEXT, texts[0]).0, texts[1..]);
    }
  }

  /** A list of written texts is read back as exactly that list, and nothing beyond it is consumed. */
  lemma {:induction false} TextsAreReadBack(
    texts: seq<seq<byte>>, keys: seq<Key>, rest: seq<byte>, reader: Outbound)
    requires Short(texts) && |texts| <= |keys|
    ensures ReadTexts(Stream(OP_TEXT, texts, keys) + rest, reader, |texts|) == (TextsRead(texts), rest, reader)
    decreases |texts|
  {
    hide ParseFrame, EncodeFrame;
    if texts == [] {
      assert Stream(OP_TEXT, texts, keys) + rest == rest;
    } else {
      var tail := Stream(OP_TEXT, texts[1..], keys[1..]) + rest;
      assert Stream(OP_TEXT, texts, keys) + rest == EncodeFrame(OP_TEXT, texts[0], keys[0]) + tail;
      FrameRoundTrip(OP_TEXT, texts[0], keys[0], tail);
      assert [] + texts[0] == texts[0];
      TextsAreReadBack(texts[1..], keys[1..], rest, reader);
      assert TextsRead(texts) == [Text(texts[0])] + TextsRead(texts[1..]);
    }
  }

  /**
   A connection lost inside a frame: every text sent whole is still read, and the next read fails
   instead of making a text out of the broken frame.
   */
  lemma CutStreamEndsInError(
    texts: seq<seq<byte>>, keys: seq<Key>, last: seq<byte>, key: Key, j: nat, reader: Outbound)
    requires Short(texts) && |texts| <= |keys| && |last| <= MAX_INT64
    requires j < |EncodeFrame(OP_TEXT, last, key)|
    ensures var cut := EncodeFrame(OP_TEXT, last, key)[..j];
            var (results, input', out') := ReadTexts(Stream(OP_TEXT, texts, keys) + cut, reader, |texts|);
            results == TextsRead(texts) && ReadTextFrom(input', out', []).result.FrameError?
  {
    hide ParseFrame, EncodeFrame, Stream, ReadTexts;
    var e := EncodeFrame(OP_TEXT, last, key);
    TextsAreReadBack(texts, keys, e[..j], reader);
    FrameRoundTrip(OP_TEXT, last, key, []);
    assert e + [] == e;
    CutFrameIsBroken(e, j);
    assert ParseFrame(e[..j]).Broken?;
  }

  // ---------------------------------------------------------- the connection

  class WsConn {
    var input: seq<byte>
    var sent: seq<byte>
    var keys: seq<Key>
    var room: nat

    constructor (input: seq<byte>, keys: seq<Key>, room: nat)
      ensures this.input == input && Out() == Outbound([], keys, room)
    {
      this.input, this.sent, this.keys, this.room := input, [], keys, room;
    }

    function Out(): Outbound
      reads this
    {
      Outbound(sent, keys, room)
    }

    /** `io.ReadFull`: all of `n` bytes, or an error once the input has run dry. */
    method ReadFull(n: nat) returns (ok: bool, buf: array<byte>)
      modifies this`input
      ensures fresh(buf) && buf.Length == n
      ensures ok == (n <= |old(input)|)
      ensures ok ==> buf[..] == old(input)[..n] && input == old(input)[n..]
      ensures !ok ==> input == []
    {
      buf := new byte[n];
      ok := n <= |input|;
      if ok {
        forall i | 0 <= i < n { buf[i] := input[i]; }
        input := input[n..];
      } else {
        input := [];
      }
    }

    method ReadFrame() returns (r: FrameResult)
      modifies this`input
      ensures r == ParseFrame(old(input)) && input == r.rest
    {
      var ok, head := ReadFull(1);
      if !ok { return Broken(HeaderByte0, input); }
      var b0 := head[0];
      ok, head := ReadFull(1);
      if !ok { return Broken(HeaderByte1, input); }
      var b1 := head[0];
      assert old(input)[1..][1..] == old(input)[2..];
      var length := ReadLength(LengthForm(b1));
      if length.BadLength? { return Broken(length.error, input); }
      r := ReadBody(TopBit(b0), Opcode(b0), TopBit(b1), length.n);
    }

    /** The switch over the length forms. */
    method ReadLength(form: byte) returns (r: LengthResult)
      modifies this`input
      ensures r == ParseLength(form, old(input)) && input == r.rest
    {
      if form == 126 {
        var ok, ext := ReadFull(2);
        if !ok { return BadLength(Length16, input); }
        r := Length(FromBigEndian(ext[..]), input);
      } else if form == 127 {
        var ok, ext := ReadFull(8);
        if !ok { return BadLength(Length64, input); }
        var rawLen := FromBigEndian(ext[..]);
        if rawLen > MAX_INT64 { return BadLength(LengthOverflow(rawLen), input); }
        r := Length(rawLen, input);
      } else {
        r := Length(form as nat, input);
      }
    }

    /** The mask key, if any, and the payload, unmasked in place. */
    method ReadBody(fin: bool, opcode: byte, masked: bool, length: nat) returns (r: FrameResult)
      modifies this`input
      ensures r == ParseBody(fin, opcode, masked, length, old(input)) && input == r.rest
    {
      var maskKey := [0, 0, 0, 0];
      if masked {
        var ok, key := ReadFull(4);
        if !ok { return Broken(MaskKeyCut, input); }
        maskKey := key[..];
      }
      var ok, payload := ReadFull(length);
      if !ok { return Broken(PayloadCut, input); }
      if masked {
        assert payload[..] == old(input)[4..4 + length];
        Unmask(payload, maskKey);
      }
      r := Parsed(Frame(fin, opcode, payload[..]), input);
    }

    method WriteFrame(opcode: byte, payload: seq<byte>) returns (r: WriteResult)
      requires |payload| <= MAX_INT64
      modifies this`sent, this`keys, this`room
      ensures (Out(), r) == Write(old(Out()), opcode, payload)
    {
      if keys == [] { return Unsent(NoEntropy); }
      var maskKey := keys[0];
      keys := keys[1..];
      var header := FrameHeader(opcode, |payload|);
      header := header + maskKey;
      var masked := Masked(payload, maskKey);
      var frame := header + masked[..];
      assert frame == EncodeFrame(opcode, payload, maskKey);
      if |frame| <= room {
        sent, room := sent + frame, room - |frame|;
        r := Sent;
      } else {
        sent, room := sent + frame[..room], 0;
        r := Unsent(WriteFailed);
      }
    }

    method WriteText(text: seq<byte>) returns (r: WriteResult)
      requires |text| <= MAX_INT64
      modifies this`sent, this`keys, this`room
      ensures (Out(), r) == Write(old(Out()), OP_TEXT, text)
    {
      r := WriteFrame(OP_TEXT, text);
    }

    method SendClose() returns (r: WriteResult)
      modifies this`sent, this`keys, this`room
      ensures (Out(), r) == Write(old(Out()), OP_CLOSE, [])
    {
      r := WriteFrame(OP_CLOSE, []);
    }

    method ReadText() returns (r: TextResult)
      modifies this
      ensures ReadOutcome(r, input, Out()) == ReadTextFrom(old(input), old(Out()), [])
    {
      var payload: seq<byte> := [];
      while true
        invariant ReadTextFrom(input, Out(), payload) == ReadTextFrom(old(input), old(Out()), [])
        decreases |input|
      {
        PayloadFits(input);
        var frame := ReadFrame();
        if frame.Broken? { return FrameError(frame.error); }
        var Frame(fin, opcode, data) := frame.frame;
        if opcode == OP_CLOSE {
          var _ := SendClose();
          return Eof;
        } else if opcode == OP_PING {
          var pong := WriteFrame(OP_PONG, data);
          if pong.Unsent? { return PongError(pong.error); }
        } else if opcode == OP_PONG {
          // an unsolicited pong is dropped
        } else if IsData(opcode) {
          payload := payload + data;
          if fin { return Text(payload); }
        }
      }
    }
  }

  /** The header that `writeFrame` grows, up to the masking key. */
  method FrameHeader(opcode: byte, length: nat) returns (header: seq<byte>)
    requires length <= MAX_INT64
    ensures header == [0x80 | opcode] + LengthField(length)
  {
    header := [0x80 | opcode];
    if length <= 125 {
      header := header + [0x80 | (length as byte)];
    } else if length <= 65535 {
      header := header + [0x80 | 126];
      header := header + BigEndian(length, 2);
    } else {
      header := header + [0x80 | 127];
      header := header + BigEndian(length, 8);
    }
  }

  /** The masking loop of `writeFrame`. */
  method Masked(payload: seq<byte>, key: Key) returns (masked: array<byte>)
    ensures fresh(masked) && masked[..] == Mask(payload, key)
  {
    masked := new byte[|payload|];
    for i := 0 to |payload|
      invariant forall k :: 0 <= k < i ==> masked[k] == payload[k] ^ key[k % 4]
    {
      masked[i] := payload[i] ^ key[i % 4];
    }
  }

  /** The in-place unmasking loop at the end of `readFrame`. */
  method Unmask(a: array<byte>, key: Key)
    modifies a
    ensures a[..] == Mask(old(a[..]), key)
    ensures forall i :: 0 <= i < a.Length ==> a[i] == old(a[i]) ^ key[i % 4]
  {
    for i := 0 to a.Length
      invariant forall k :: 0 <= k < i ==> a[k] == old(a[k]) ^ key[k % 4]
      invariant forall k :: i <= k < a.Length ==> a[k] == old(a[k])
    {
      a[i] := a[i] ^ key[i % 4];
    }
  }
}
