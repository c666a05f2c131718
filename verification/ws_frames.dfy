/** The frames of a client (RFC 6455, sections 5.2 to 5.6) and what the parser makes of them. */
module WsFrames {
  import opened WsBytes
  import opened WsParser
  import Utf8

  /** The three forms of the payload length; a sender may use a longer form than it needs. */
  datatype LengthForm = Short | Medium | Long

  function ExtraBytes(form: LengthForm): nat {
    match form case Short => 0 case Medium => 2 case Long => 8
  }

  datatype ClientFrame = ClientFrame(fin: bool, opcode: nat, form: LengthForm, key: Key, payload: seq<byte>)
  {
    predicate WellFormed() {
      && opcode < 16
      && |payload| <= PAYLOAD_LIMIT
      && (form == Short ==> |payload| <= 125)
      && (form == Medium ==> |payload| < 0x1_0000)
    }
  }

  /** The `count` low bytes of n, most significant first. */
  function BigEndian(n: nat, count: nat): (bytes: seq<byte>)
    ensures |bytes| == count
  {
    if count == 0 then [] else BigEndian(n / 256, count - 1) + [n % 256]
  }

  function Value(bytes: seq<byte>): nat {
    if bytes == [] then 0 else Value(bytes[..|bytes| - 1]) * 256 + bytes[|bytes| - 1]
  }

  function Pow256(n: nat): nat {
    if n == 0 then 1 else 256 * Pow256(n - 1)
  }

  lemma {:induction false} ValueOfBigEndian(n: nat, count: nat)
    requires n < Pow256(count)
    ensures Value(BigEndian(n, count)) == n
  {
    if count > 0 {
      ValueOfBigEndian(n / 256, count - 1);
      assert BigEndian(n, count)[..count - 1] == BigEndian(n / 256, count - 1);
    }
  }

  lemma {:induction false} BigEndianOfValue(bytes: seq<byte>)
    ensures BigEndian(Value(bytes), |bytes|) == bytes
    ensures Value(bytes) < Pow256(|bytes|)
    decreases |bytes|
  {
    if bytes != [] {
      BigEndianOfValue(bytes[..|bytes| - 1]);
    }
  }

  function LengthBytes(form: LengthForm, length: nat): seq<byte>
    requires form == Short ==> length <= 125
  {
    match form
    case Short => [128 + length]
    case Medium => [128 + 126] + BigEndian(length, 2)
    case Long => [128 + 127] + BigEndian(length, 8)
  }

  function EncodeFrame(f: ClientFrame): (bytes: seq<byte>)
    requires f.WellFormed()
    ensures |bytes| == 6 + ExtraBytes(f.form) + |f.payload|
  {
    [(if f.fin then 128 else 0) + f.opcode] + LengthBytes(f.form, |f.payload|) + f.key + Mask(f.key, f.payload)
  }

  // ---------------------------------------------------------------------------
  // The meaning of a sequence of frames
  // ---------------------------------------------------------------------------

  /** The message under construction: its kind and the payload so far. */
  datatype Context = Idle | Open(text: bool, sofar: seq<byte>)
  {
    ghost predicate Sound() {
      Open? && text ==> Utf8.Extendable(sofar)
    }
  }

  /** RFC 6455, section 5.4: which frames may begin, given the message under construction. */
  predicate MayBegin(context: Context, fin: bool, opcode: nat) {
    if opcode >= 8 then fin
    else if opcode == OPCODE_CONTINUATION then context.Open?
    else context.Idle?
  }

  predicate IsText(context: Context, opcode: nat) {
    opcode == OPCODE_TEXT || (opcode == OPCODE_CONTINUATION && context.Open? && context.text)
  }

  function Sofar(context: Context): seq<byte> {
    if context.Open? then context.sofar else []
  }

  /** The frames that keep the connection open. */
  ghost predicate Legal(context: Context, f: ClientFrame) {
    && f.WellFormed()
    && MayBegin(context, f.fin, f.opcode)
    && f.opcode in {OPCODE_CONTINUATION, OPCODE_TEXT, OPCODE_BINARY, OPCODE_PING, OPCODE_PONG}
    && (f.opcode >= 8 ==> f.form == Short)
    && (IsText(context, f.opcode) ==>
          if f.fin then Utf8.WellFormed(Sofar(context) + f.payload) else Utf8.Extendable(Sofar(context) + f.payload))
  }

  function After(context: Context, f: ClientFrame): Context {
    if f.opcode >= 8 then context
    else if f.fin then Idle
    else Open(IsText(context, f.opcode), Sofar(context) + f.payload)
  }

  function Emitted(context: Context, f: ClientFrame): seq<Event> {
    if f.opcode == OPCODE_PING then [Pong(f.payload)]
    else if f.opcode < 8 && f.fin then [Deliver(Sofar(context) + f.payload)]
    else []
  }

  ghost predicate LegalAll(context: Context, frames: seq<ClientFrame>): (legal: bool)
    ensures legal ==> forall f :: f in frames ==> f.WellFormed()
    decreases |frames|
  {
    frames == [] || (Legal(context, frames[0]) && LegalAll(After(context, frames[0]), frames[1..]))
  }

  function AfterAll(context: Context, frames: seq<ClientFrame>): Context
    decreases |frames|
  {
    if frames == [] then context else AfterAll(After(context, frames[0]), frames[1..])
  }

  function Meaning(context: Context, frames: seq<ClientFrame>): seq<Event>
    decreases |frames|
  {
    if frames == [] then []
    else Emitted(context, frames[0]) + Meaning(After(context, frames[0]), frames[1..])
  }

  function EncodeFrames(frames: seq<ClientFrame>): seq<byte>
    requires forall f :: f in frames ==> f.WellFormed()
  {
    if frames == [] then [] else EncodeFrame(frames[0]) + EncodeFrames(frames[1..])
  }

  // ---------------------------------------------------------------------------
  // Judging the head of a stream frame by frame
  // ---------------------------------------------------------------------------

  datatype Verdict = NeedMore | Refuse(status: nat) | Accept(frame: ClientFrame)

  function FormOf(length7: nat): LengthForm {
    if length7 == 126 then Medium else if length7 == 127 then Long else Short
  }

  function HeaderSize(s: seq<byte>): nat
    requires |s| >= 2
  {
    6 + ExtraBytes(FormOf(Length7(s[1])))
  }

  /** The payload length that a header announces. */
  function Announced(s: seq<byte>): nat
    requires |s| >= 2 && |s| >= HeaderSize(s) - 4
  {
    var form := FormOf(Length7(s[1]));
    if form == Short then Length7(s[1]) else Value(s[2..2 + ExtraBytes(form)])
  }

  /** The payload bytes of the first frame that have arrived, unmasked. */
  function Arrived(s: seq<byte>): seq<byte>
    requires |s| >= 2 && |s| >= HeaderSize(s)
  {
    var h, n := HeaderSize(s), Announced(s);
    Mask(s[h - 4..h], s[h..if h + n <= |s| then h + n else |s|])
  }

  /** What a stream that continues `context` starts with: the first violation decides, in the order
      reserved bits and opcode, mask and control length, size, UTF-8, and opcode of the whole frame. */
  ghost function Judge(version: int, context: Context, s: seq<byte>): Verdict {
    if |s| == 0 then NeedMore
    else if Rsv(s[0]) != 0 || !MayBegin(context, Fin(s[0]), Opcode(s[0])) then Refuse(STATUS_PROTOCOL_ERROR)
    else if |s| == 1 then NeedMore
    else if !Masked(s[1]) || (Opcode(s[0]) >= 8 && Length7(s[1]) >= 126) then Refuse(STATUS_PROTOCOL_ERROR)
    else if |s| < HeaderSize(s) - 4 then NeedMore
    else if Announced(s) > PAYLOAD_LIMIT then Refuse(TooLargeStatus(version))
    else if |s| < HeaderSize(s) then NeedMore
    else if IsText(context, Opcode(s[0])) && !Utf8.Extendable(Sofar(context) + Arrived(s))
    then Refuse(STATUS_INVALID_UTF8)
    else if |s| < HeaderSize(s) + Announced(s) then NeedMore
    else JudgeWhole(context, FirstFrame(s))
  }

  function FirstFrame(s: seq<byte>): ClientFrame
    requires |s| >= 2 && |s| >= HeaderSize(s)
  {
    var h := HeaderSize(s);
    ClientFrame(Fin(s[0]), Opcode(s[0]), FormOf(Length7(s[1])), s[h - 4..h], Arrived(s))
  }

  ghost function JudgeWhole(context: Context, f: ClientFrame): Verdict {
    if IsText(context, f.opcode) && f.fin && !Utf8.WellFormed(Sofar(context) + f.payload)
    then Refuse(STATUS_INVALID_UTF8)
    else if f.opcode == OPCODE_CLOSE then Refuse(STATUS_OK)
    else if f.opcode in {OPCODE_CONTINUATION, OPCODE_TEXT, OPCODE_BINARY, OPCODE_PING, OPCODE_PONG} then Accept(f)
    else Refuse(STATUS_PROTOCOL_ERROR)
  }

  lemma SplitStream(s: seq<byte>, a: nat, b: nat, c: nat)
    requires 1 <= a <= b <= c <= |s|
    ensures s[..c] == [s[0]] + s[1..a] + s[a..b] + s[b..c]
  {
  }

  /** A whole frame at the head of the stream is the encoding of what is read from it. */
  lemma FirstFrameStands(s: seq<byte>)
    requires |s| >= 2 && |s| >= HeaderSize(s) && |s| >= HeaderSize(s) + Announced(s)
    requires Rsv(s[0]) == 0 && Masked(s[1]) && Announced(s) <= PAYLOAD_LIMIT
    ensures FirstFrame(s).WellFormed() && EncodeFrame(FirstFrame(s)) == s[..HeaderSize(s) + Announced(s)]
  {
    hide Mask, Xor, LengthBytes, Announced;
    var h, n, form := HeaderSize(s), Announced(s), FormOf(Length7(s[1]));
    MaskTwice(s[h - 4..h], s[h..h + n]);
    AnnouncedIsEncoded(s);
    SplitStream(s, h - 4, h, h + n);
    FirstByteFields(s[0]);
  }

  lemma FirstByteFields(b: byte)
    requires Rsv(b) == 0
    ensures b == (if Fin(b) then 128 else 0) + Opcode(b)
  {
  }

  lemma AnnouncedIsEncoded(s: seq<byte>)
    requires |s| >= 2 && |s| >= HeaderSize(s) - 4 && Masked(s[1])
    ensures var form := FormOf(Length7(s[1]));
            && (form == Short ==> Announced(s) <= 125) && (form == Medium ==> Announced(s) < 0x1_0000)
            && LengthBytes(form, Announced(s)) == s[1..HeaderSize(s) - 4]
  {
    var h, form := HeaderSize(s), FormOf(Length7(s[1]));
    if form != Short {
      BigEndianOfValue(s[2..h - 4]);
      assert Pow256(2) == 0x1_0000;
      assert s[1..h - 4] == [s[1]] + s[2..h - 4];
    }
  }

  /** An accepted frame is legal and its encoding stands at the head of the stream. */
  lemma AcceptIsSound(version: int, context: Context, s: seq<byte>)
    requires Judge(version, context, s).Accept?
    ensures var f := Judge(version, context, s).frame;
            Legal(context, f) && |EncodeFrame(f)| <= |s| && EncodeFrame(f) == s[..|EncodeFrame(f)|]
  {
    FirstFrameStands(s);
  }

  lemma LayoutOfLength(form: LengthForm, length: nat)
    requires length <= PAYLOAD_LIMIT && (form == Short ==> length <= 125) && (form == Medium ==> length < 0x1_0000)
    ensures var bytes := LengthBytes(form, length);
            && |bytes| == 1 + ExtraBytes(form) && Masked(bytes[0]) && FormOf(Length7(bytes[0])) == form
            && (if form == Short then Length7(bytes[0]) else Value(bytes[1..])) == length
  {
    if form != Short {
      assert Pow256(2) == 0x1_0000 && PAYLOAD_LIMIT < Pow256(4) <= Pow256(8);
      ValueOfBigEndian(length, ExtraBytes(form));
      assert LengthBytes(form, length)[1..] == BigEndian(length, ExtraBytes(form));
    }
  }

  lemma PartsOfStream(b: byte, lengths: seq<byte>, key: seq<byte>, masked: seq<byte>, rest: seq<byte>)
    requires lengths != []
    ensures var s, k := [b] + lengths + key + masked + rest, 1 + |lengths|;
            && s[0] == b && s[1] == lengths[0] && s[2..k] == lengths[1..]
            && s[k..k + |key|] == key && s[k + |key|..k + |key| + |masked|] == masked
  {
  }

  /** What is read from the head of a stream that starts with the encoding of a frame. */
  lemma FirstFrameOfEncoding(f: ClientFrame, rest: seq<byte>)
    requires f.WellFormed()
    ensures var s := EncodeFrame(f) + rest;
            && Rsv(s[0]) == 0 && Masked(s[1]) && HeaderSize(s) == 6 + ExtraBytes(f.form)
            && |s| >= HeaderSize(s) + |f.payload| && Announced(s) == |f.payload| && FirstFrame(s) == f
  {
    hide Mask, Xor, LengthBytes;
    var s := EncodeFrame(f) + rest;
    var first: byte := (if f.fin then 128 else 0) + f.opcode;
    var lengths := LengthBytes(f.form, |f.payload|);
    var masked := Mask(f.key, f.payload);
    var h := 6 + ExtraBytes(f.form);
    LayoutOfLength(f.form, |f.payload|);
    assert s == [first] + lengths + f.key + masked + rest;
    PartsOfStream(first, lengths, f.key, masked, rest);
    MaskTwice(f.key, f.payload);
  }

  /** The head of the encoding of a legal frame is accepted as that frame. */
  lemma LegalIsAccepted(version: int, context: Context, f: ClientFrame, rest: seq<byte>)
    requires Legal(context, f)
    ensures Judge(version, context, EncodeFrame(f) + rest) == Accept(f)
  {
    hide FirstFrame, Announced;
    var s := EncodeFrame(f) + rest;
    FirstFrameOfEncoding(f, rest);
    FirstFrameFields(s);
    if IsText(context, f.opcode) && f.fin {
      WellFormedIsExtendable(Sofar(context) + f.payload);
    }
  }

  lemma FirstFrameFields(s: seq<byte>)
    requires |s| >= 2 && |s| >= HeaderSize(s)
    ensures var f := FirstFrame(s);
            f.fin == Fin(s[0]) && f.opcode == Opcode(s[0]) && f.form == FormOf(Length7(s[1])) && f.payload == Arrived(s)
  {
  }

  lemma WellFormedIsExtendable(bytes: seq<byte>)
    requires Utf8.WellFormed(bytes)
    ensures Utf8.Extendable(bytes)
  {
    assert bytes + [] == bytes;
  }
}
