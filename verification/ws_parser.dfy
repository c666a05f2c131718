/** A byte-at-a-time reference parser for the frames a WebSocket client sends. */
module WsParser {
  import opened WsBytes
  import Utf8

  const PAYLOAD_LIMIT := 32 * 1024 * 1024

  const OPCODE_CONTINUATION := 0x0
  const OPCODE_TEXT := 0x1
  const OPCODE_BINARY := 0x2
  const OPCODE_CLOSE := 0x8
  const OPCODE_PING := 0x9
  const OPCODE_PONG := 0xA

  const STATUS_OK := 1000
  const STATUS_PROTOCOL_ERROR := 1002
  const STATUS_RESERVED := 1004
  const STATUS_INVALID_UTF8 := 1007
  const STATUS_MESSAGE_TOO_LARGE := 1009

  /** Fields of the two fixed header bytes (RFC 6455, section 5.2). */
  predicate Fin(b: byte) { b / 128 == 1 }
  function Rsv(b: byte): nat { b / 16 % 8 }
  function Opcode(b: byte): nat { b % 16 }
  predicate Masked(b: byte) { b / 128 == 1 }
  function Length7(b: byte): nat { b % 128 }

  const INT64_MODULUS := 0x1_0000_0000_0000_0000

  /** A 64-bit two's complement value: what an `apr_int64_t` keeps of a number. */
  function Int64(x: int): int {
    var low := x % INT64_MODULUS;
    if low >= INT64_LIMIT then low - INT64_MODULUS else low
  }

  /** It is the number in the 64-bit range with the same low bits. */
  lemma Int64InRange(x: int)
    ensures -0x8000_0000_0000_0000 <= Int64(x) < 0x8000_0000_0000_0000
    ensures (x - Int64(x)) % 0x1_0000_0000_0000_0000 == 0
  {
  }

  /** Cutting off early makes no difference to a sum. */
  lemma Int64Add(x: int, y: int)
    ensures Int64(Int64(x) + y) == Int64(x + y)
  {
    var k := if Int64(x) == x % INT64_MODULUS then x / INT64_MODULUS else x / INT64_MODULUS + 1;
    assert x == k * INT64_MODULUS + Int64(x);
    ModuloPeriod(Int64(x) + y, k);
  }

  lemma ModuloPeriod(x: int, k: int)
    ensures (x + k * INT64_MODULUS) % INT64_MODULUS == x % INT64_MODULUS
  {
    var q, r := x / INT64_MODULUS, x % INT64_MODULUS;
    assert x + k * INT64_MODULUS == (q + k) * INT64_MODULUS + r;
  }

  function TooLargeStatus(version: int): nat {
    if version >= 13 then STATUS_MESSAGE_TOO_LARGE else STATUS_RESERVED
  }

  /** What the parser hands on: a whole message to the database, a pong to the client. */
  datatype Event = Deliver(payload: seq<byte>) | Pong(payload: seq<byte>)

  /** FIN and the opcode of the current frame; a continuation has the opcode of its message. */
  datatype Head = Head(fin: bool, opcode: nat)

  /** The data message under construction, if any. */
  datatype Message = NoMessage | Partial(opcode: nat, utf8: Utf8.State, data: seq<byte>)

  datatype Phase =
    | Start
    | Length(head: Head)
    | Extended(head: Head, remaining: nat, value: int)
    | Masking(head: Head, length: nat, got: seq<byte>)
    | Payload(head: Head, left: nat, key: Key)

  datatype Parser =
    | Running(phase: Phase, message: Message, control: seq<byte>, events: seq<Event>)
    | Closed(status: nat, events: seq<Event>)
  {
    predicate Valid() {
      Running? ==>
        && (message.Partial? ==> 1 <= message.opcode <= 7)
        && (phase.Start? ==> control == [])
        && (!phase.Start? ==> Consistent(phase.head))
        && (phase.Extended? ==> 1 <= phase.remaining <= 8)
        && (phase.Masking? ==> |phase.got| < 4)
    }

    predicate Consistent(head: Head)
      requires Running?
    {
      if head.opcode >= 8
      then head.fin && head.opcode < 16
      else message.Partial? && message.opcode == head.opcode
    }

    function Fail(code: nat): Parser {
      Closed(code, events)
    }
  }

  const INITIAL := Running(Start, NoMessage, [], [])

  function OpenFrame(p: Parser, b: byte): (q: Parser)
    requires p.Valid() && p.Running? && p.phase.Start?
    ensures q.Valid()
  {
    var fin, opcode := Fin(b), Opcode(b);
    if Rsv(b) != 0 then p.Fail(STATUS_PROTOCOL_ERROR)
    else if opcode >= 8 then
      if fin then p.(phase := Length(Head(fin, opcode))) else p.Fail(STATUS_PROTOCOL_ERROR)
    else if opcode != 0 then
      if p.message.NoMessage?
      then p.(phase := Length(Head(fin, opcode)), message := Partial(opcode, Utf8.VALID, []))
      else p.Fail(STATUS_PROTOCOL_ERROR)
    else
      if p.message.Partial?
      then p.(phase := Length(Head(fin, p.message.opcode)))
      else p.Fail(STATUS_PROTOCOL_ERROR)
  }

  function TakeLength(p: Parser, b: byte): (q: Parser)
    requires p.Valid() && p.Running? && p.phase.Length?
    ensures q.Valid()
  {
    var head, length := p.phase.head, Length7(b);
    if !Masked(b) || (head.opcode >= 8 && length >= 126) then p.Fail(STATUS_PROTOCOL_ERROR)
    else if length == 126 then p.(phase := Extended(head, 2, 0))
    else if length == 127 then p.(phase := Extended(head, 8, 0))
    else p.(phase := Masking(head, length, []))
  }

  function TakeExtended(version: int, p: Parser, b: byte): (q: Parser)
    requires p.Valid() && p.Running? && p.phase.Extended?
    ensures q.Valid()
  {
    var value := Int64(p.phase.value * 256 + b);
    if p.phase.remaining > 1 then p.(phase := Extended(p.phase.head, p.phase.remaining - 1, value))
    else if value < 0 || value > PAYLOAD_LIMIT then p.Fail(TooLargeStatus(version))
    else p.(phase := Masking(p.phase.head, value, []))
  }

  function TakeMask(p: Parser, b: byte): (q: Parser)
    requires p.Valid() && p.Running? && p.phase.Masking?
    ensures q.Valid()
  {
    var got := p.phase.got + [b];
    if |got| < 4 then p.(phase := Masking(p.phase.head, p.phase.length, got))
    else Settle(p.(phase := Payload(p.phase.head, p.phase.length, got)))
  }

  /** Adds one unmasked payload byte to the frame's data. */
  function Absorb(p: Parser, c: byte, phase: Phase): (q: Parser)
    requires p.Valid() && p.Running? && p.phase.Payload?
    requires phase.Payload? && phase.head == p.phase.head
    ensures q.Valid()
  {
    if p.phase.head.opcode >= 8 then p.(phase := phase, control := p.control + [c])
    else if p.phase.head.opcode == OPCODE_TEXT then
      var utf8 := Utf8.ValidateUtf8(p.message.utf8 + c);
      if utf8 == Utf8.INVALID then p.Fail(STATUS_INVALID_UTF8)
      else p.(phase := phase, message := Partial(p.message.opcode, utf8, p.message.data + [c]))
    else p.(phase := phase, message := p.message.(data := p.message.data + [c]))
  }

  function TakePayload(p: Parser, b: byte): (q: Parser)
    requires p.Valid() && p.Running? && p.phase.Payload? && p.phase.left > 0
    ensures q.Valid()
  {
    var Payload(head, left, key) := p.phase;
    Absorb(p, Xor(b, key[0]), Payload(head, left - 1, Rotate(key)))
  }

  /** A frame whose payload is complete is finished at once. */
  function Settle(p: Parser): (q: Parser)
    requires p.Valid()
    ensures q.Valid()
  {
    if p.Running? && p.phase.Payload? && p.phase.left == 0 then Finish(p) else p
  }

  function Finish(p: Parser): (q: Parser)
    requires p.Valid() && p.Running? && p.phase.Payload?
    ensures q.Valid()
  {
    var head := p.phase.head;
    if head.opcode == OPCODE_TEXT && head.fin && p.message.utf8 != Utf8.VALID then p.Fail(STATUS_INVALID_UTF8)
    else if head.opcode == OPCODE_TEXT || head.opcode == OPCODE_BINARY then
      if head.fin
      then Running(Start, NoMessage, [], p.events + [Deliver(p.message.data)])
      else Running(Start, p.message, [], p.events)
    else if head.opcode == OPCODE_CLOSE then p.Fail(STATUS_OK)
    else if head.opcode == OPCODE_PING then Running(Start, p.message, [], p.events + [Pong(p.control)])
    else if head.opcode == OPCODE_PONG then Running(Start, p.message, [], p.events)
    else p.Fail(STATUS_PROTOCOL_ERROR)
  }

  function Step(version: int, p: Parser, b: byte): (q: Parser)
    requires p.Valid()
    ensures q.Valid()
  {
    if p.Closed? then p
    else match p.phase
      case Start => OpenFrame(p, b)
      case Length(_) => TakeLength(p, b)
      case Extended(_, _, _) => TakeExtended(version, p, b)
      case Masking(_, _, _) => TakeMask(p, b)
      case Payload(_, left, _) => if left == 0 then p else Settle(TakePayload(p, b))
  }

  /** The parser fed with the bytes of `stream` from position `at` on. */
  function Run(version: int, p: Parser, stream: seq<byte>, at: nat): (q: Parser)
    requires p.Valid() && at <= |stream|
    ensures q.Valid()
    decreases |stream| - at
  {
    if at == |stream| then p else Run(version, Step(version, p, stream[at]), stream, at + 1)
  }

  function Parse(version: int, stream: seq<byte>): (q: Parser)
    ensures q.Valid()
  {
    Run(version, INITIAL, stream, 0)
  }

  lemma {:induction false} ClosedStays(version: int, p: Parser, stream: seq<byte>, at: nat)
    requires p.Closed? && at <= |stream|
    ensures Run(version, p, stream, at) == p
    decreases |stream| - at
  {
    if at < |stream| {
      ClosedStays(version, p, stream, at + 1);
    }
  }

  lemma {:induction false} RunConcat(version: int, p: Parser, a: seq<byte>, b: seq<byte>, at: nat)
    requires p.Valid() && at <= |a|
    ensures Run(version, p, a + b, at) == Run(version, Run(version, p, a, at), b, 0)
    decreases |a| - at
  {
    if at == |a| {
      RunShift(version, p, a, b, 0);
    } else {
      RunConcat(version, Step(version, p, a[at]), a, b, at + 1);
    }
  }

  lemma {:induction false} RunShift(version: int, p: Parser, a: seq<byte>, b: seq<byte>, at: nat)
    requires p.Valid() && at <= |b|
    ensures Run(version, p, a + b, |a| + at) == Run(version, p, b, at)
    decreases |b| - at
  {
    if at < |b| {
      RunShift(version, Step(version, p, b[at]), a, b, at + 1);
    }
  }

  // The length bytes.

  /** The phase after the second byte and some length bytes: `left` are still missing. */
  ghost function AfterSecondByte(head: Head, left: nat, value: int): Phase
    requires left == 0 ==> value >= 0
  {
    if left == 0 then Masking(head, value, []) else Extended(head, left, value)
  }

  /** How many length bytes follow the second header byte. */
  function ExtraLengthBytes(length7: nat): nat {
    if length7 == 126 then 2 else if length7 == 127 then 8 else 0
  }

  lemma SecondByte(p: Parser, b: byte)
    requires p.Valid() && p.Running? && p.phase.Length?
    ensures var length := Length7(b);
            var extra := ExtraLengthBytes(length);
            TakeLength(p, b) ==
              if !Masked(b) || (p.phase.head.opcode >= 8 && extra != 0) then Closed(STATUS_PROTOCOL_ERROR, p.events)
              else p.(phase := AfterSecondByte(p.phase.head, extra, if extra == 0 then length else 0))
  {
  }

  /** Where the length bytes lead: `left` of them are missing and the others make up `value`. */
  ghost function Lengthened(version: int, p: Parser, head: Head, left: nat, value: int): (q: Parser)
    requires p.Valid() && p.Running? && p.Consistent(head) && left <= 8
    ensures q.Valid()
  {
    if left > 0 then Running(Extended(head, left, value), p.message, p.control, p.events)
    else if value < 0 || value > PAYLOAD_LIMIT then p.Fail(TooLargeStatus(version))
    else Running(Masking(head, value, []), p.message, p.control, p.events)
  }

  lemma LengthenedTakesByte(version: int, p: Parser, head: Head, left: nat, value: int, b: byte)
    requires p.Valid() && p.Running? && p.Consistent(head) && 1 <= left <= 8
    ensures Step(version, Lengthened(version, p, head, left, value), b)
         == Lengthened(version, p, head, left - 1, Int64(Int64(value * 256) + b))
  {
    Int64Add(value * 256, b);
  }

  // The mask bytes.

  /** The parser with some of the mask bytes, or all four of them. */
  ghost function Collecting(p: Parser, head: Head, length: nat, got: seq<byte>): (q: Parser)
    requires p.Valid() && p.Running? && p.Consistent(head) && |got| <= 4
    ensures q.Valid()
  {
    var phase := if |got| < 4 then Masking(head, length, got) else Payload(head, length, got);
    Settle(Running(phase, p.message, p.control, p.events))
  }

  lemma CollectingTakesByte(version: int, p: Parser, head: Head, length: nat, got: seq<byte>, b: byte)
    requires p.Valid() && p.Running? && p.Consistent(head) && |got| < 4
    ensures Step(version, Collecting(p, head, length, got), b) == Collecting(p, head, length, got + [b])
    ensures Collecting(p, head, length, got).Running? && Collecting(p, head, length, got).events == p.events
  {
  }

  // Whole runs of payload bytes.

  /** The key as the next byte sees it, `offset` bytes into the payload. */
  function KeyAt(mask: Key, offset: nat): Key {
    [mask[offset % 4], mask[(offset + 1) % 4], mask[(offset + 2) % 4], mask[(offset + 3) % 4]]
  }

  /** What a parser in the middle of a payload becomes once `extra` unmasked bytes are added. */
  ghost function Grown(p: Parser, left: nat, key: Key, utf8: Utf8.State, extra: seq<byte>): (q: Parser)
    requires p.Valid() && p.Running? && p.phase.Payload?
    ensures q.Valid()
  {
    var phase := Payload(p.phase.head, left, key);
    if p.phase.head.opcode >= 8 then p.(phase := phase, control := p.control + extra)
    else p.(phase := phase, message := Partial(p.message.opcode, utf8, p.message.data + extra))
  }

  lemma GrownShape(p: Parser, left: nat, key: Key, utf8: Utf8.State, extra: seq<byte>)
    requires p.Valid() && p.Running? && p.phase.Payload?
    ensures var q := Grown(p, left, key, utf8, extra);
            q.Running? && q.phase == Payload(p.phase.head, left, key) && q.events == p.events
  {
  }

  lemma GrownTakesByte(version: int, p: Parser, left: nat, key: Key, utf8: Utf8.State, extra: seq<byte>, b: byte)
    requires p.Valid() && p.Running? && p.phase.Payload? && left > 0
    ensures Settle(Grown(p, left, key, utf8, extra)) == Grown(p, left, key, utf8, extra)
    ensures var c := Xor(b, key[0]);
            var q := Step(version, Grown(p, left, key, utf8, extra), b);
            if p.phase.head.opcode == OPCODE_TEXT then
              var next := Utf8.ValidateUtf8(utf8 + c);
              if next == Utf8.INVALID then q == Closed(STATUS_INVALID_UTF8, p.events)
              else q == Settle(Grown(p, left - 1, Rotate(key), next, extra + [c]))
            else q == Settle(Grown(p, left - 1, Rotate(key), utf8, extra + [c]))
  {
    var c := Xor(b, key[0]);
    assert p.control + (extra + [c]) == (p.control + extra) + [c];
    if p.phase.head.opcode < 8 {
      assert p.message.data + (extra + [c]) == (p.message.data + extra) + [c];
    }
  }

  /** A run of payload bytes taken at once: what the reference parser makes of them one by one. */
  lemma {:induction false} PayloadRun(version: int, p: Parser, left: nat, key: Key, utf8: Utf8.State, extra: seq<byte>,
                                      block: seq<byte>, at: nat, count: nat)
    requires p.Valid() && p.Running? && p.phase.Payload?
    requires at + count <= |block| && count <= left
    ensures var plain := Mask(key, block[at..at + count]);
            var result := Run(version, Settle(Grown(p, left, key, utf8, extra)), block, at);
            var final := if p.phase.head.opcode == OPCODE_TEXT then Utf8.Run(utf8, plain) else utf8;
            if final == Utf8.INVALID then result == Closed(STATUS_INVALID_UTF8, p.events)
            else
              var grown := Grown(p, left - count, KeyAt(key, count), final, extra + plain);
              result == Run(version, Settle(grown), block, at + count)
    decreases count
  {
    hide Utf8.ValidateUtf8, Utf8.Run, Xor, Step, Settle, Grown, Mask, KeyAt, Rotate;
    KeyAtStart(key);
    if count == 0 {
      assert block[at..at + count] == [] && extra + [] == extra;
      MaskStep(key, []);
      Utf8.RunEmpty(utf8);
    } else {
      var c := Xor(block[at], key[0]);
      var rest := Mask(Rotate(key), block[at + 1..at + count]);
      assert block[at..at + count] == [block[at]] + block[at + 1..at + count];
      MaskStep(key, block[at..at + count]);
      Utf8.RunStep(utf8, c, rest);
      assert (extra + [c]) + rest == extra + ([c] + rest);
      GrownTakesByte(version, p, left, key, utf8, extra, block[at]);
      var next := if p.phase.head.opcode == OPCODE_TEXT then Utf8.ValidateUtf8(utf8 + c) else utf8;
      if next == Utf8.INVALID {
        ClosedStays(version, Closed(STATUS_INVALID_UTF8, p.events), block, at + 1);
      } else {
        PayloadRun(version, p, left - 1, Rotate(key), next, extra + [c], block, at + 1, count - 1);
        KeyAtOnward(key, 1, count - 1);
      }
    }
  }

  lemma MaskStep(key: Key, bytes: seq<byte>)
    ensures bytes == [] ==> Mask(key, bytes) == []
    ensures bytes != [] ==> Mask(key, bytes) == [Xor(bytes[0], key[0])] + Mask(Rotate(key), bytes[1..])
  {
  }

  lemma KeyAtStart(key: Key)
    ensures KeyAt(key, 0) == key && KeyAt(key, 1) == Rotate(key)
  {
  }

  lemma KeyAtOnward(mask: Key, i: nat, j: nat)
    ensures KeyAt(KeyAt(mask, i), j) == KeyAt(mask, i + j)
  {
    KeyIndex(mask, i, j);
    KeyIndex(mask, i, j + 1);
    KeyIndex(mask, i, j + 2);
    KeyIndex(mask, i, j + 3);
  }

  lemma KeyIndex(mask: Key, i: nat, j: nat)
    ensures KeyAt(mask, i)[j % 4] == mask[(i + j) % 4]
  {
    var r := j % 4;
    assert (i + j) % 4 == (i + r) % 4;
  }

  lemma RunEnd(version: int, p: Parser, block: seq<byte>)
    requires p.Valid()
    ensures Run(version, p, block, |block|) == p
  {
  }

  lemma NothingToSettle(p: Parser)
    requires p.Valid() && (p.Closed? || !p.phase.Payload?)
    ensures Settle(p) == p
  {
  }

  lemma StartGrowing(p: Parser)
    requires p.Valid() && p.Running? && p.phase.Payload?
    ensures p.message.Partial? || p.phase.head.opcode >= 8
    ensures p.phase.head.opcode >= 8 ==> forall utf8: Utf8.State :: Grown(p, p.phase.left, p.phase.key, utf8, []) == p
    ensures p.message.Partial? ==> Grown(p, p.phase.left, p.phase.key, p.message.utf8, []) == p
  {
    assert p.control + [] == p.control;
    if p.message.Partial? {
      assert p.message.data + [] == p.message.data;
    }
  }

  function Flatten(blocks: seq<seq<byte>>): seq<byte> {
    if blocks == [] then [] else blocks[0] + Flatten(blocks[1..])
  }
}
