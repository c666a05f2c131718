/** The frames the server sends, and how a client reads them back. */
module WsServer {
  import opened WsBytes
  import opened WsParser
  import opened WsFrames
  import opened WsVerdict

  // Message types of mgwsi_ws_client_send_block.
  const TYPE_TEXT := 0
  const TYPE_BINARY := 128
  const TYPE_CLOSE := 255
  const TYPE_PING := 256
  const TYPE_PONG := 257

  /** The opcode for a message type; every other type counts as CLOSE. */
  function OpcodeOfType(messageType: int): nat {
    if messageType == TYPE_TEXT then OPCODE_TEXT
    else if messageType == TYPE_BINARY then OPCODE_BINARY
    else if messageType == TYPE_PING then OPCODE_PING
    else if messageType == TYPE_PONG then OPCODE_PONG
    else OPCODE_CLOSE
  }

  /** The first byte a client reads of a message of each type: FIN, no reserved bits, and the opcode. */
  lemma FirstByteOnTheWire(messageType: int, payload: seq<byte>)
    requires |payload| < INT64_LIMIT
    ensures var f := ServerFrame(OpcodeOfType(messageType), payload);
            && f.Sendable()
            && EncodeServer(f)[0] == FirstByte(messageType)
  {
  }

  /** 0x81 for text, 0x82 for binary data, 0x89 for a ping, 0x8A for a pong and 0x88 for everything else. */
  function FirstByte(messageType: int): byte {
    if messageType == 0 then 0x81
    else if messageType == 128 then 0x82
    else if messageType == 256 then 0x89
    else if messageType == 257 then 0x8A
    else 0x88
  }

  /** RFC 6455, section 5.2: the minimal number of bytes MUST be used to encode the length. */
  function ShortestForm(length: nat): LengthForm {
    if length <= 125 then Short else if length < 0x1_0000 then Medium else Long
  }

  /** The header of an unmasked, unfragmented frame. */
  function ServerHeader(opcode: nat, length: nat): (header: seq<byte>)
    requires opcode < 16
    ensures 2 <= |header| <= 10
  {
    var form := ShortestForm(length);
    [128 + opcode, if form == Short then length else if form == Medium then 126 else 127]
    + BigEndian(length, ExtraBytes(form))
  }

  /** `(length >> (index * 8)) & 0xFF`. */
  function LengthByte(length: nat, index: nat): byte {
    if index == 0 then length % 256 else LengthByte(length / 256, index - 1)
  }

  lemma {:induction false} BigEndianAt(n: nat, count: nat, i: nat)
    requires i < count
    ensures BigEndian(n, count)[i] == LengthByte(n, count - 1 - i)
    decreases count
  {
    if i < count - 1 {
      BigEndianAt(n / 256, count - 1, i);
    }
  }

  lemma LengthBytesInOrder(length: nat, count: nat)
    ensures forall i :: 0 <= i < count ==> BigEndian(length, count)[i] == LengthByte(length, count - 1 - i)
  {
    forall i | 0 <= i < count
      ensures BigEndian(length, count)[i] == LengthByte(length, count - 1 - i)
    {
      BigEndianAt(length, count, i);
    }
  }

  /** The header as `mgwsi_ws_client_send_block` writes it into its buffer. */
  method BuildHeader(header: array<byte>, opcode: nat, length: nat) returns (pos: nat)
    requires header.Length == 32 && opcode < 16 && length < INT64_LIMIT
    modifies header
    ensures pos <= 32 && header[..pos] == ServerHeader(opcode, length)
  {
    hide LengthByte, BigEndian;
    header[0] := 128 + opcode;
    pos := 1;
    LengthBytesInOrder(length, ExtraBytes(ShortestForm(length)));
    if length < 126 {
      header[pos] := LengthOnly(length);
      pos := pos + 1;
    } else {
      if length < 65536 {
        header[pos] := 126;
        pos := pos + 1;
      } else {
        header[pos] := 127;
        header[pos + 1] := LengthByte(length, 7);
        header[pos + 2] := LengthByte(length, 6);
        header[pos + 3] := LengthByte(length, 5);
        header[pos + 4] := LengthByte(length, 4);
        header[pos + 5] := LengthByte(length, 3);
        header[pos + 6] := LengthByte(length, 2);
        pos := pos + 7;
      }
      header[pos] := LengthByte(length, 1);
      header[pos + 1] := LengthByte(length, 0);
      pos := pos + 2;
    }
  }

  function LengthOnly(length: nat): byte
    requires length < 126
    ensures LengthOnly(length) == length
  {
    LengthByte(length, 0)
  }

  /** No form of the length that can hold it is shorter than the one the server uses. */
  lemma HeaderIsShortest(opcode: nat, length: nat, form: LengthForm)
    requires opcode < 16 && (form == Short ==> length <= 125) && (form == Medium ==> length < 0x1_0000)
    ensures |ServerHeader(opcode, length)| <= 2 + ExtraBytes(form)
  {
  }

  /** The length accumulator of the framing loop recovers every length the server can send. */
  lemma AccumulatorRecoversLength(opcode: nat, length: nat)
    requires opcode < 16 && length < INT64_LIMIT
    ensures var header := ServerHeader(opcode, length);
            var extra := ExtraLengthBytes(Length7(header[1]));
            && |header| == 2 + extra
            && (if extra == 0 then Length7(header[1]) else Accumulate(0, header[2..])) == length
  {
    hide BigEndian, Accumulate, Value;
    var form := ShortestForm(length);
    var header := ServerHeader(opcode, length);
    assert header[2..] == BigEndian(length, ExtraBytes(form));
    if form != Short {
      Pow256Eight();
      assert Pow256(2) == 0x1_0000;
      ValueOfBigEndian(length, ExtraBytes(form));
      AccumulateIsValue(header[2..]);
    }
  }

  // ---------------------------------------------------------------------------
  // Reading server frames
  // ---------------------------------------------------------------------------

  datatype ServerFrame = ServerFrame(opcode: nat, payload: seq<byte>)
  {
    predicate Sendable() {
      opcode < 16 && |payload| < INT64_LIMIT
    }
  }

  function EncodeServer(f: ServerFrame): seq<byte>
    requires f.Sendable()
  {
    ServerHeader(f.opcode, |f.payload|) + f.payload
  }

  function EncodeServerAll(frames: seq<ServerFrame>): seq<byte>
    requires forall f :: f in frames ==> f.Sendable()
  {
    if frames == [] then [] else EncodeServer(frames[0]) + EncodeServerAll(frames[1..])
  }

  datatype Reading = Incomplete | Malformed | Whole(frame: ServerFrame, size: nat)

  /** A client reads one frame off the stream (RFC 6455, section 5.2); the frames of a server are not masked, have no
      reserved bits and, here, are not fragmented. */
  function ReadServerFrame(s: seq<byte>): (r: Reading)
    ensures r.Whole? ==> 2 <= r.size <= |s|
  {
    if |s| < 2 then Incomplete
    else if !Fin(s[0]) || Rsv(s[0]) != 0 || Masked(s[1]) then Malformed
    else
      var start := 2 + ExtraBytes(FormOf(Length7(s[1])));
      if |s| < start then Incomplete
      else
        var length := if start == 2 then Length7(s[1]) else Value(s[2..start]);
        if |s| < start + length then Incomplete
        else Whole(ServerFrame(Opcode(s[0]), s[start..start + length]), start + length)
  }

  function ReadServerFrames(s: seq<byte>): seq<ServerFrame>
    decreases |s|
  {
    var r := ReadServerFrame(s);
    if !r.Whole? then [] else [r.frame] + ReadServerFrames(s[r.size..])
  }

  lemma ThreeParts(a: seq<byte>, b: seq<byte>, c: seq<byte>, cut: nat)
    requires |a| >= 2 && cut <= |a + b + c|
    ensures |a| <= cut ==> (a + b + c)[..cut][2..|a|] == a[2..]
    ensures |a + b| <= cut ==> (a + b + c)[..cut][|a|..|a| + |b|] == b
  {
  }

  /** What a client sees of the first bytes of a frame. */
  lemma ServerFrameReads(f: ServerFrame, rest: seq<byte>, cut: nat)
    requires f.Sendable() && cut <= |EncodeServer(f) + rest|
    ensures ReadServerFrame((EncodeServer(f) + rest)[..cut])
         == if cut < |EncodeServer(f)| then Incomplete else Whole(f, |EncodeServer(f)|)
  {
    hide BigEndian;
    var s := EncodeServer(f) + rest;
    var form := ShortestForm(|f.payload|);
    var start := 2 + ExtraBytes(form);
    var header := ServerHeader(f.opcode, |f.payload|);
    assert s == header + f.payload + rest && |header| == start;
    ThreeParts(header, f.payload, rest, cut);
    if cut >= 2 {
      assert s[..cut][0] == header[0] && s[..cut][1] == header[1];
      if cut >= start {
        assert header[2..] == BigEndian(|f.payload|, ExtraBytes(form));
        if form != Short {
          Pow256Eight();
          assert Pow256(2) == 0x1_0000;
          ValueOfBigEndian(|f.payload|, ExtraBytes(form));
        }
      }
    }
  }

  /** A client reads back exactly the frames written, and nothing of a frame cut short. */
  lemma {:induction false} ServerFramesRead(frames: seq<ServerFrame>, last: ServerFrame, cut: nat)
    requires (forall f :: f in frames ==> f.Sendable()) && last.Sendable() && cut < |EncodeServer(last)|
    ensures ReadServerFrames(EncodeServerAll(frames) + EncodeServer(last)[..cut]) == frames
    decreases |frames|
  {
    hide ReadServerFrame, EncodeServer;
    if frames == [] {
      assert EncodeServerAll(frames) + EncodeServer(last)[..cut] == EncodeServer(last)[..cut];
      assert EncodeServer(last) + [] == EncodeServer(last);
      ServerFrameReads(last, [], cut);
    } else {
      var f, more := frames[0], EncodeServerAll(frames[1..]) + EncodeServer(last)[..cut];
      var s := EncodeServerAll(frames) + EncodeServer(last)[..cut];
      assert s == EncodeServer(f) + more;
      assert s[..|s|] == s;
      ServerFrameReads(f, more, |s|);
      assert s[|EncodeServer(f)|..] == more;
      ServerFramesRead(frames[1..], last, cut);
    }
  }
}
