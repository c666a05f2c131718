/** The byte-at-a-time parser decides exactly as the frame-by-frame judgement does. */
module WsVerdict {
  import opened WsBytes
  import opened WsParser
  import opened WsFrames
  import Utf8

  // ---------------------------------------------------------------------------
  // Length bytes and mask
  // ---------------------------------------------------------------------------

  /** The signed accumulator run over length bytes. */
  function Accumulate(value: int, bytes: seq<byte>): int
    decreases |bytes|
  {
    if bytes == [] then value
    else Accumulate(Int64(Int64(value * 256) + bytes[0]), bytes[1..])
  }

  lemma {:induction false} AccumulateLast(value: int, bytes: seq<byte>, b: byte)
    ensures Accumulate(value, bytes + [b]) == Int64(Int64(Accumulate(value, bytes) * 256) + b)
    decreases |bytes|
  {
    if bytes == [] {
      assert Accumulate(value, [b]) == Int64(Int64(value * 256) + b);
    } else {
      assert (bytes + [b])[1..] == bytes[1..] + [b];
      AccumulateLast(Int64(Int64(value * 256) + bytes[0]), bytes[1..], b);
    }
  }

  /** The accumulator ends as the announced length cut to 64 bits. */
  lemma {:induction false} AccumulateIsValue(bytes: seq<byte>)
    ensures Accumulate(0, bytes) == Int64(Value(bytes))
    decreases |bytes|
  {
    if bytes != [] {
      var init, last := bytes[..|bytes| - 1], bytes[|bytes| - 1];
      AccumulateIsValue(init);
      assert bytes == init + [last];
      AccumulateLast(0, init, last);
      ShiftAdd(Value(init), last);
    }
  }

  lemma ShiftAdd(x: int, b: byte)
    ensures Int64(Int64(Int64(x) * 256) + b) == Int64(x * 256 + b)
  {
    Int64Add(Int64(x) * 256, b);
    var k := (x - Int64(x)) / INT64_MODULUS;
    Int64Offset(x);
    assert x * 256 + b == (Int64(x) * 256 + b) + (256 * k) * INT64_MODULUS;
    ModuloPeriod(Int64(x) * 256 + b, 256 * k);
  }

  lemma Int64Offset(x: int)
    ensures Int64(x) + ((x - Int64(x)) / INT64_MODULUS) * INT64_MODULUS == x
  {
    var k := if Int64(x) == x % INT64_MODULUS then x / INT64_MODULUS else x / INT64_MODULUS + 1;
    assert x - Int64(x) == k * INT64_MODULUS;
  }

  /** At most eight length bytes: the sign or the size betrays every length over the limit. */
  lemma LimitTest(bytes: seq<byte>)
    requires |bytes| <= 8
    ensures var value := Accumulate(0, bytes);
            && (value < 0 || value > PAYLOAD_LIMIT <==> Value(bytes) > PAYLOAD_LIMIT)
            && (Value(bytes) <= PAYLOAD_LIMIT ==> value == Value(bytes))
  {
    hide Pow256, Int64, Accumulate, Value;
    AccumulateIsValue(bytes);
    BigEndianOfValue(bytes);
    Pow256Grows(|bytes|, 8);
    Pow256Eight();
    Int64Limit(Value(bytes));
  }

  lemma Pow256Eight()
    ensures Pow256(8) == INT64_MODULUS
  {
    assert Pow256(4) == 0x1_0000_0000;
  }

  lemma Int64Limit(value: nat)
    requires value < INT64_MODULUS
    ensures Int64(value) < 0 || Int64(value) > PAYLOAD_LIMIT <==> value > PAYLOAD_LIMIT
    ensures value <= PAYLOAD_LIMIT ==> Int64(value) == value
  {
  }

  lemma {:induction false} Pow256Grows(m: nat, n: nat)
    requires m <= n
    ensures 0 < Pow256(m) <= Pow256(n)
    decreases n
  {
    if m < n {
      Pow256Grows(m, n - 1);
    } else if n > 0 {
      Pow256Grows(n - 1, n - 1);
    }
  }

  lemma {:induction false} LengthBytesRun(version: int, p: Parser, head: Head, left: nat, value: int, s: seq<byte>,
                                          at: nat)
    requires p.Valid() && p.Running? && p.Consistent(head) && left <= 8 && at <= |s|
    ensures var r := Run(version, Lengthened(version, p, head, left, value), s, at);
            if at + left <= |s|
            then r == Run(version, Lengthened(version, p, head, 0, Accumulate(value, s[at..at + left])), s, at + left)
            else r.Running? && r.events == p.events
    decreases left
  {
    if left > 0 && at < |s| {
      LengthenedTakesByte(version, p, head, left, value, s[at]);
      LengthBytesRun(version, p, head, left - 1, Int64(Int64(value * 256) + s[at]), s, at + 1);
      if at + left <= |s| {
        assert s[at..at + left][1..] == s[at + 1..at + left];
      }
    }
  }

  lemma {:induction false} MaskBytesRun(version: int, p: Parser, head: Head, length: nat, got: seq<byte>, s: seq<byte>,
                                        at: nat)
    requires p.Valid() && p.Running? && p.Consistent(head) && |got| <= 4 && at <= |s|
    ensures var r, end := Run(version, Collecting(p, head, length, got), s, at), at + 4 - |got|;
            if end <= |s| then r == Run(version, Collecting(p, head, length, got + s[at..end]), s, end)
            else r.Running? && r.events == p.events
    decreases 4 - |got|
  {
    hide Step, Collecting;
    if |got| == 4 {
      assert got + s[at..at] == got;
    } else {
      if at < |s| {
        CollectingTakesByte(version, p, head, length, got, s[at]);
        MaskBytesRun(version, p, head, length, got + [s[at]], s, at + 1);
        if at + 4 - |got| <= |s| {
          assert (got + [s[at]]) + s[at + 1..at + 4 - |got|] == got + s[at..at + 4 - |got|];
        }
      } else {
        CollectingTakesByte(version, p, head, length, got, 0);
      }
    }
  }

  // ---------------------------------------------------------------------------
  // One frame
  // ---------------------------------------------------------------------------

  function MessageOf(context: Context): Message {
    match context
    case Idle => NoMessage
    case Open(text, sofar) =>
      var utf8 := if text then Utf8.Run(Utf8.VALID, sofar) else Utf8.VALID;
      Partial(if text then OPCODE_TEXT else OPCODE_BINARY, if utf8 == Utf8.INVALID then Utf8.VALID else utf8, sofar)
  }

  /** The parser between two frames. */
  function Ready(context: Context, events: seq<Event>): (p: Parser)
    ensures p.Valid()
  {
    Running(Start, MessageOf(context), [], events)
  }

  /** The opcode the parser works with: that of the message for a continuation. */
  function Effective(context: Context, opcode: nat): nat {
    if opcode == OPCODE_CONTINUATION && context.Open? then if context.text then OPCODE_TEXT else OPCODE_BINARY
    else opcode
  }

  /** The parser after the first byte of a frame. */
  function Begun(context: Context, events: seq<Event>, b: byte, phase: Phase): (p: Parser)
    requires MayBegin(context, Fin(b), Opcode(b)) && !phase.Start?
    requires phase.head == Head(Fin(b), Effective(context, Opcode(b)))
    requires phase.Extended? ==> 1 <= phase.remaining <= 8
    requires phase.Masking? ==> |phase.got| < 4
    ensures p.Valid() && p.Running?
  {
    var message := if 0 < Opcode(b) < 8 then Partial(Opcode(b), Utf8.VALID, []) else MessageOf(context);
    Running(phase, message, [], events)
  }

  lemma FirstByteDecides(context: Context, events: seq<Event>, b: byte)
    ensures OpenFrame(Ready(context, events), b)
         == if Rsv(b) != 0 || !MayBegin(context, Fin(b), Opcode(b)) then Closed(STATUS_PROTOCOL_ERROR, events)
            else Begun(context, events, b, Length(Head(Fin(b), Effective(context, Opcode(b)))))
  {
  }

  /** From the first header byte to the payload. */
  lemma HeaderDecides(version: int, context: Context, events: seq<Event>, s: seq<byte>)
    requires |s| >= 2 && Rsv(s[0]) == 0 && MayBegin(context, Fin(s[0]), Opcode(s[0]))
    ensures var r := Run(version, Ready(context, events), s, 0);
            var head := Head(Fin(s[0]), Effective(context, Opcode(s[0])));
            var h := HeaderSize(s);
            if !Masked(s[1]) || (Opcode(s[0]) >= 8 && Length7(s[1]) >= 126)
            then r == Closed(STATUS_PROTOCOL_ERROR, events)
            else if |s| < h - 4 then r.Running? && r.events == events
            else if Announced(s) > PAYLOAD_LIMIT then r == Closed(TooLargeStatus(version), events)
            else if |s| < h then r.Running? && r.events == events
            else r == Run(version, Settle(Begun(context, events, s[0], Payload(head, Announced(s), s[h - 4..h]))), s, h)
  {
    var head := Head(Fin(s[0]), Effective(context, Opcode(s[0])));
    FirstByteDecides(context, events, s[0]);
    var p := Begun(context, events, s[0], Length(head));
    var length7 := Length7(s[1]);
    SecondByte(p, s[1]);
    var q := TakeLength(p, s[1]);
    TwoSteps(version, Ready(context, events), p, q, s);
    if !Masked(s[1]) || (Opcode(s[0]) >= 8 && length7 >= 126) {
      ClosedStays(version, q, s, 2);
    } else {
      HeaderTail(version, context, events, s, head);
    }
  }

  lemma TwoSteps(version: int, p0: Parser, p1: Parser, p2: Parser, s: seq<byte>)
    requires p0.Valid() && p1.Valid() && p2.Valid() && |s| >= 2
    requires p1 == Step(version, p0, s[0]) && p2 == Step(version, p1, s[1])
    ensures Run(version, p0, s, 0) == Run(version, p2, s, 2)
  {
    assert Run(version, p1, s, 1) == Run(version, p2, s, 2);
  }

  lemma HeaderTail(version: int, context: Context, events: seq<Event>, s: seq<byte>, head: Head)
    requires |s| >= 2 && MayBegin(context, Fin(s[0]), Opcode(s[0])) && Masked(s[1])
    requires head == Head(Fin(s[0]), Effective(context, Opcode(s[0])))
    ensures var extra := ExtraLengthBytes(Length7(s[1]));
            var start := AfterSecondByte(head, extra, if extra == 0 then Length7(s[1]) else 0);
            var r := Run(version, Begun(context, events, s[0], start), s, 2);
            var h := HeaderSize(s);
            if |s| < h - 4 then r.Running? && r.events == events
            else if Announced(s) > PAYLOAD_LIMIT then r == Closed(TooLargeStatus(version), events)
            else if |s| < h then r.Running? && r.events == events
            else r == Run(version, Settle(Begun(context, events, s[0], Payload(head, Announced(s), s[h - 4..h]))), s, h)
  {
    hide Run, Settle, Accumulate;
    var p := Begun(context, events, s[0], Length(head));
    var extra, h := ExtraLengthBytes(Length7(s[1])), HeaderSize(s);
    var value := if extra == 0 then Length7(s[1]) else 0;
    LengthBytesRun(version, p, head, extra, value, s, 2);
    if |s| >= h - 4 {
      var total := Accumulate(value, s[2..h - 4]);
      AnnouncedIsAccumulated(s);
      if Announced(s) > PAYLOAD_LIMIT {
        ClosedStays(version, Closed(TooLargeStatus(version), events), s, h - 4);
      } else {
        NothingToSettle(p.(phase := Masking(head, total, [])));
        MaskBytesRun(version, p, head, total, [], s, h - 4);
        if |s| >= h {
          assert [] + s[h - 4..h] == s[h - 4..h];
        }
      }
    }
  }

  lemma AnnouncedIsAccumulated(s: seq<byte>)
    requires |s| >= 2 && |s| >= HeaderSize(s) - 4
    ensures var extra, h := ExtraLengthBytes(Length7(s[1])), HeaderSize(s);
            var total := Accumulate(if extra == 0 then Length7(s[1]) else 0, s[2..h - 4]);
            && extra == h - 6
            && (total < 0 || total > PAYLOAD_LIMIT <==> Announced(s) > PAYLOAD_LIMIT)
            && (Announced(s) <= PAYLOAD_LIMIT ==> total == Announced(s))
  {
    var h := HeaderSize(s);
    LimitTest(s[2..h - 4]);
  }

  // ---------------------------------------------------------------------------
  // The payload
  // ---------------------------------------------------------------------------

  /** The validation state the current frame starts from. */
  function StartUtf8(context: Context, opcode: nat): Utf8.State {
    if opcode == OPCODE_CONTINUATION && context.Open? then MessageOf(context).utf8 else Utf8.VALID
  }

  /** Validation of the whole message so far, by the table and by RFC 3629. */
  lemma TextSoFar(context: Context, opcode: nat, plain: seq<byte>)
    requires context.Sound() && IsText(context, opcode) && (opcode == OPCODE_TEXT ==> context.Idle?)
    ensures var final := Utf8.Run(StartUtf8(context, opcode), plain);
            && final == Utf8.Run(Utf8.VALID, Sofar(context) + plain)
            && (final != Utf8.INVALID <==> Utf8.Extendable(Sofar(context) + plain))
            && (final == Utf8.VALID <==> Utf8.WellFormed(Sofar(context) + plain))
  {
    hide Utf8.ValidateUtf8, Utf8.Run, Utf8.EncodeAll, Utf8.Extendable, Utf8.WellFormed;
    Utf8.FailsExactlyWhenHopeless(Sofar(context) + plain);
    Utf8.AcceptsExactlyWellFormed(Sofar(context) + plain);
    if context.Idle? {
      assert Sofar(context) + plain == plain;
    } else {
      SoundSofar(context);
      Utf8.RunConcat(Utf8.VALID, context.sofar, plain);
    }
  }

  lemma SoundSofar(context: Context)
    requires context.Sound() && context.Open? && context.text
    ensures Utf8.Run(Utf8.VALID, context.sofar) != Utf8.INVALID
  {
    Utf8.FailsExactlyWhenHopeless(context.sofar);
  }

  /** The parser in the payload of a frame, `plain` bytes of it taken and `left` bytes missing. */
  ghost function InPayload(context: Context, events: seq<Event>, b: byte, left: nat, key: Key,
                           utf8: Utf8.State, plain: seq<byte>): (p: Parser)
    requires MayBegin(context, Fin(b), Opcode(b))
    ensures p.Valid() && p.Running? && p.phase == Payload(Head(Fin(b), Effective(context, Opcode(b))), left, key)
  {
    var head := Head(Fin(b), Effective(context, Opcode(b)));
    Grown(Begun(context, events, b, Payload(head, left, key)), left, key, utf8, plain)
  }

  /** What a complete frame does. */
  lemma FinishDecides(context: Context, events: seq<Event>, b: byte, key: Key, form: LengthForm, first: Key,
                      plain: seq<byte>)
    requires context.Sound() && Rsv(b) == 0 && MayBegin(context, Fin(b), Opcode(b))
    requires IsText(context, Opcode(b)) ==> Utf8.Extendable(Sofar(context) + plain)
    ensures var f := ClientFrame(Fin(b), Opcode(b), form, first, plain);
            var utf8 := StartUtf8(context, Opcode(b));
            var final := if IsText(context, Opcode(b)) then Utf8.Run(utf8, plain) else utf8;
            final != Utf8.INVALID &&
            var r := Finish(InPayload(context, events, b, 0, key, final, plain));
            if JudgeWhole(context, f).Refuse? then r == Closed(JudgeWhole(context, f).status, events)
            else JudgeWhole(context, f) == Accept(f) && r == Ready(After(context, f), events + Emitted(context, f))
  {
    hide Utf8.ValidateUtf8, Utf8.Run, Utf8.EncodeAll, Utf8.Extendable, Utf8.WellFormed;
    assert [] + plain == plain;
    assert events + [] == events;
    if IsText(context, Opcode(b)) {
      TextSoFar(context, Opcode(b), plain);
    }
  }

  /** From the end of the header over the payload bytes that have arrived. */
  lemma PayloadTaken(version: int, context: Context, events: seq<Event>, b: byte, s: seq<byte>, h: nat, left: nat,
                     key: Key, count: nat)
    requires context.Sound() && MayBegin(context, Fin(b), Opcode(b)) && h + count <= |s| && count <= left
    ensures var head := Head(Fin(b), Effective(context, Opcode(b)));
            var r := Run(version, Settle(Begun(context, events, b, Payload(head, left, key))), s, h);
            var plain := Mask(key, s[h..h + count]);
            var utf8 := StartUtf8(context, Opcode(b));
            var final := if IsText(context, Opcode(b)) then Utf8.Run(utf8, plain) else utf8;
            if IsText(context, Opcode(b)) && !Utf8.Extendable(Sofar(context) + plain)
            then r == Closed(STATUS_INVALID_UTF8, events)
            else
              && final != Utf8.INVALID
              && var q := InPayload(context, events, b, left - count, KeyAt(key, count), final, plain);
                 r == Run(version, Settle(q), s, h + count)
  {
    hide Run, Settle, Mask, Utf8.ValidateUtf8, Utf8.Run, Utf8.EncodeAll, Utf8.Extendable, Utf8.WellFormed;
    var p := Begun(context, events, b, Payload(Head(Fin(b), Effective(context, Opcode(b))), left, key));
    var plain := Mask(key, s[h..h + count]);
    StartGrowing(p);
    PayloadRun(version, p, left, key, StartUtf8(context, Opcode(b)), [], s, h, count);
    assert [] + plain == plain;
    if IsText(context, Opcode(b)) {
      TextSoFar(context, Opcode(b), plain);
    }
  }

  lemma PayloadDecides(version: int, context: Context, events: seq<Event>, s: seq<byte>)
    requires context.Sound() && |s| >= 2 && |s| >= HeaderSize(s) && Announced(s) <= PAYLOAD_LIMIT
    requires Rsv(s[0]) == 0 && MayBegin(context, Fin(s[0]), Opcode(s[0]))
    ensures var head := Head(Fin(s[0]), Effective(context, Opcode(s[0])));
            var h, n := HeaderSize(s), Announced(s);
            var r := Run(version, Settle(Begun(context, events, s[0], Payload(head, n, s[h - 4..h]))), s, h);
            if IsText(context, Opcode(s[0])) && !Utf8.Extendable(Sofar(context) + Arrived(s))
            then r == Closed(STATUS_INVALID_UTF8, events)
            else if |s| < h + n then r.Running? && r.events == events
            else
              var f := FirstFrame(s);
              if JudgeWhole(context, f).Refuse? then r == Closed(JudgeWhole(context, f).status, events)
              else JudgeWhole(context, f) == Accept(f)
                   && r == Run(version, Ready(After(context, f), events + Emitted(context, f)), s, h + n)
  {
    hide Run, Mask, Utf8.ValidateUtf8, Utf8.Run, Utf8.EncodeAll, Utf8.Extendable, Utf8.WellFormed, KeyAt, Finish;
    var b, h, n := s[0], HeaderSize(s), Announced(s);
    var key, arrived := s[h - 4..h], Arrived(s);
    PayloadTaken(version, context, events, b, s, h, n, key, |arrived|);
    if !(IsText(context, Opcode(b)) && !Utf8.Extendable(Sofar(context) + arrived)) {
      var utf8 := StartUtf8(context, Opcode(b));
      var final := if IsText(context, Opcode(b)) then Utf8.Run(utf8, arrived) else utf8;
      var q := InPayload(context, events, b, n - |arrived|, KeyAt(key, |arrived|), final, arrived);
      if |arrived| < n {
        RunEnd(version, q, s);
      } else {
        FinishDecides(context, events, b, KeyAt(key, n), FormOf(Length7(s[1])), key, arrived);
        if Finish(q).Closed? {
          ClosedStays(version, Finish(q), s, h + n);
        }
      }
    }
  }

  /** The parser fed with a stream decides as the judgement of its first frame does. */
  lemma JudgeDecides(version: int, context: Context, events: seq<Event>, s: seq<byte>)
    requires context.Sound()
    ensures var r := Run(version, Ready(context, events), s, 0);
            var verdict := Judge(version, context, s);
            && (verdict.NeedMore? ==> r.Running? && r.events == events)
            && (verdict.Refuse? ==> r == Closed(verdict.status, events))
            && (verdict.Accept? ==>
                  var f := verdict.frame;
                  && f.WellFormed() && |EncodeFrame(f)| <= |s|
                  && r == Run(version, Ready(After(context, f), events + Emitted(context, f)), s, |EncodeFrame(f)|))
  {
    hide Utf8.ValidateUtf8, Utf8.Run, Utf8.Extendable, Utf8.WellFormed, Settle, Finish, TakeLength, TakeExtended,
      TakeMask;
    if |s| > 0 {
      FirstByteDecides(context, events, s[0]);
      if Rsv(s[0]) != 0 || !MayBegin(context, Fin(s[0]), Opcode(s[0])) {
        ClosedStays(version, Closed(STATUS_PROTOCOL_ERROR, events), s, 1);
      } else if |s| >= 2 {
        HeaderDecides(version, context, events, s);
        var refused := !Masked(s[1]) || (Opcode(s[0]) >= 8 && Length7(s[1]) >= 126);
        if !refused && |s| >= HeaderSize(s) && Announced(s) <= PAYLOAD_LIMIT {
          PayloadDecides(version, context, events, s);
          if |s| >= HeaderSize(s) + Announced(s) {
            FirstFrameStands(s);
          }
        }
      }
    }
  }
}
