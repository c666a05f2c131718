/** `mgwsi_ws_data_framing`: the resumable parser that works on blocks cut at arbitrary places. */
module WsFraming {
  import opened WsBytes
  import opened WsParser
  import Utf8
  import WsTheorems

  datatype FramingState = MASK | START | PAYLOAD_LENGTH | PAYLOAD_LENGTH_EXT | EXTENSION_DATA | APPLICATION_DATA | CLOSE

  // The three reserved bits, one macro each in the source.
  function Rsv1(b: byte): nat { b / 64 % 2 }
  function Rsv2(b: byte): nat { b / 32 % 2 }
  function Rsv3(b: byte): nat { b / 16 % 2 }

  lemma ReservedBits(b: byte)
    ensures Rsv1(b) == Rsv2(b) == Rsv3(b) == 0 <==> Rsv(b) == 0
    ensures 0 <= Opcode(b) < 16
  {
  }

  /** The data collected for one frame kind (`MGWSIWSFD`). */
  class FrameData {
    var applicationDataOffset: nat
    var applicationData: seq<byte>  // the heap block; empty stands for a null pointer
    var fin: bool
    var opcode: nat
    var utf8State: int

    constructor (fin: bool, opcode: nat)
      ensures applicationDataOffset == 0 && applicationData == []
      ensures this.fin == fin && this.opcode == opcode && utf8State == Utf8.VALID
    {
      applicationDataOffset, applicationData := 0, [];
      this.fin, this.opcode, utf8State := fin, opcode, Utf8.VALID;
    }

    function Data(): seq<byte>
      reads this
      requires applicationDataOffset <= |applicationData|
    {
      applicationData[..applicationDataOffset]
    }

    ghost function Partial(): Message
      reads this
      requires applicationDataOffset <= |applicationData| && Utf8.IsState(utf8State)
    {
      Message.Partial(opcode, utf8State, Data())
    }

    /** `realloc`: keeps what fits, and says nothing of the new bytes. */
    method Realloc(size: nat)
      requires applicationDataOffset <= |applicationData| && applicationDataOffset <= size
      modifies `applicationData
      ensures |applicationData| == size
      ensures applicationDataOffset <= size && Data() == old(Data())
    {
      var kept := applicationData[..applicationDataOffset];
      ghost var example := kept + seq(size - applicationDataOffset, _ => 0 as byte);
      assert |example| == size && example[..applicationDataOffset] == kept;
      var block: seq<byte> :| |block| == size && block[..applicationDataOffset] == kept;
      applicationData := block;
    }
  }

  /** The local variables of the framing loop. */
  class DataFraming {
    const protocolVersion: int
    const controlFrame: FrameData
    const messageFrame: FrameData
    var frame: FrameData
    var framingState: FramingState
    var blockOffset: nat
    var payloadLength: int
    var payloadLengthBytesRemaining: nat
    var mask: Key
    var maskIndex: nat
    var maskOffset: nat
    var masking: int
    var fin: bool
    var opcode: nat
    var statusCode: nat
    var events: seq<Event>  // the calls made to mgwsi_ws_db_send and mgwsi_ws_client_send_block

    // The reference parser after the same bytes, except that a payload of length zero is still unsettled.
    ghost var current: Parser

    /** The variables agree with the reference parser; holds before and after each execution of the switch. */
    ghost predicate Valid()
      reads this, controlFrame, messageFrame
    {
      || IsClosed()
      || AtStart() || AtPayloadLength() || AtPayloadLengthExt()
      || AtMask() || (AtApplicationData() && payloadLength > 0)
    }

    ghost predicate Common()
      reads this`current, this`events, this`framingState, this`statusCode
    {
      && controlFrame != messageFrame && current.Valid() && current.events == events
      && (framingState != CLOSE ==> statusCode == STATUS_OK)
    }

    ghost predicate IsClosed()
      reads this`framingState, this`current, this`events, this`statusCode
    {
      framingState == CLOSE && Common() && current == Closed(statusCode, events)
    }

    ghost predicate AtStart()
      reads this, controlFrame, messageFrame
    {
      && framingState == START && Common() && maskIndex == 0
      && current.Running? && current.phase == Start && BetweenFrames(current.message)
    }

    /** A frame has been opened: `frame`, `fin` and `opcode` belong to it. */
    ghost predicate InFrame()
      reads this`frame, this`fin, this`opcode, this`current, this`events, this`framingState, this`statusCode
      reads controlFrame, messageFrame
    {
      && Common() && current.Running? && !current.phase.Start?
      && current.phase.head == Head(fin, opcode)
      && FrameHolds(current.message, current.control)
    }

    ghost predicate AtPayloadLength()
      reads this, controlFrame, messageFrame
    {
      framingState == PAYLOAD_LENGTH && maskIndex == 0 && InFrame() && current.phase.Length?
    }

    ghost predicate AtPayloadLengthExt()
      reads this, controlFrame, messageFrame
    {
      && framingState == PAYLOAD_LENGTH_EXT && maskIndex == 0 && InFrame()
      && masking == 1 && payloadLengthBytesRemaining <= 8
      && (payloadLengthBytesRemaining == 0 ==> 0 <= payloadLength <= 125)
      && current.phase == AfterSecondByte(Head(fin, opcode), payloadLengthBytesRemaining, payloadLength)
    }

    ghost predicate AtMask()
      reads this, controlFrame, messageFrame
    {
      && framingState == MASK && maskIndex < 4 && InFrame()
      && masking == 1 && 0 <= payloadLength <= PAYLOAD_LIMIT
      && current.phase == Masking(Head(fin, opcode), payloadLength, mask[..maskIndex])
    }

    ghost predicate AtPayload()
      reads this, controlFrame, messageFrame
    {
      && maskIndex == 0 && InFrame()
      && 0 <= payloadLength <= PAYLOAD_LIMIT
      && (masking == 0 ==> mask == ZERO_KEY)
      && current.phase == Payload(Head(fin, opcode), payloadLength, KeyAt(mask, maskOffset))
    }

    ghost predicate AtExtensionData()
      reads this, controlFrame, messageFrame
    {
      framingState == EXTENSION_DATA && AtPayload()
    }

    ghost predicate AtApplicationData()
      reads this, controlFrame, messageFrame
    {
      && framingState == APPLICATION_DATA && AtPayload()
      && (frame == controlFrame || frame == messageFrame)
      && frame.applicationDataOffset + payloadLength <= |frame.applicationData|
    }

    ghost predicate BetweenFrames(message: Message)
      reads controlFrame, messageFrame
    {
      && controlFrame.applicationDataOffset == 0
      && messageFrame.applicationDataOffset <= |messageFrame.applicationData|
      && Utf8.IsState(messageFrame.utf8State)
      && if messageFrame.fin then message == NoMessage && messageFrame.applicationDataOffset == 0
         else message == messageFrame.Partial()
    }

    ghost predicate FrameHolds(message: Message, control: seq<byte>)
      reads this`frame, this`fin, this`opcode, controlFrame, messageFrame
    {
      && controlFrame.applicationDataOffset <= |controlFrame.applicationData|
      && messageFrame.applicationDataOffset <= |messageFrame.applicationData|
      && Utf8.IsState(messageFrame.utf8State)
      && controlFrame.Data() == control
      && if opcode >= 8 then
           && frame == controlFrame
           && if messageFrame.fin then message == NoMessage && messageFrame.applicationDataOffset == 0
              else message == messageFrame.Partial()
         else
           && frame == messageFrame && messageFrame.fin == fin
           && control == [] && message == messageFrame.Partial()
    }

    /** What the reference parser will have become at the end of the block. */
    ghost function Future(block: seq<byte>): Parser
      reads this`current, this`blockOffset
      requires current.Valid() && blockOffset <= |block|
    {
      Run(protocolVersion, Settle(current), block, blockOffset)
    }

    constructor (protocolVersion: int)
      ensures AtStart() && fresh(controlFrame) && fresh(messageFrame)
      ensures this.protocolVersion == protocolVersion
      ensures framingState != CLOSE && current == INITIAL && statusCode == STATUS_OK
    {
      this.protocolVersion := protocolVersion;
      var c := new FrameData(true, OPCODE_CLOSE);
      var m := new FrameData(true, OPCODE_CONTINUATION);
      controlFrame, messageFrame, frame := c, m, c;
      framingState, blockOffset := START, 0;
      payloadLength, payloadLengthBytesRemaining := 0, 0;
      mask, maskIndex, maskOffset, masking := ZERO_KEY, 0, 0, 0;
      fin, opcode := false, 0xFF;
      statusCode, events := STATUS_OK, [];
      current := INITIAL;
    }

    /** Ends the parse with the given status. */
    method Close(code: nat)
      requires controlFrame != messageFrame && current.events == events
      modifies this`framingState, this`statusCode, this`current
      ensures IsClosed() && current == Closed(code, events)
    {
      framingState, statusCode := CLOSE, code;
      current := Closed(code, events);
    }

    // The START case, by kind of frame; `b` is the byte just taken.

    method StartControl(ghost b: byte)
      requires AtStart() && Rsv(b) == 0
      requires fin == Fin(b) && opcode == Opcode(b) && opcode >= 8
      modifies this`framingState, this`frame, this`statusCode, this`current, controlFrame`opcode, controlFrame`utf8State
      ensures AtPayloadLength() || IsClosed()
      ensures current == OpenFrame(old(current), b)
    {
      if fin {
        framingState := PAYLOAD_LENGTH;
        frame := controlFrame;
        frame.opcode, frame.utf8State := opcode, Utf8.VALID;
        current := current.(phase := Length(Head(fin, opcode)));
      } else {
        Close(STATUS_PROTOCOL_ERROR);
      }
    }

    method StartMessage(ghost b: byte)
      requires AtStart() && Rsv(b) == 0
      requires fin == Fin(b) && opcode == Opcode(b) && 0 < opcode < 8
      modifies this`framingState, this`frame, this`statusCode, this`current
      modifies messageFrame`opcode, messageFrame`utf8State, messageFrame`fin
      ensures AtPayloadLength() || IsClosed()
      ensures current == OpenFrame(old(current), b)
    {
      framingState := PAYLOAD_LENGTH;
      frame := messageFrame;
      if frame.fin {
        frame.opcode, frame.utf8State := opcode, Utf8.VALID;
        frame.fin := fin;
        current := current.(phase := Length(Head(fin, opcode)), message := Message.Partial(opcode, Utf8.VALID, []));
      } else {
        Close(STATUS_PROTOCOL_ERROR);
      }
    }

    method StartContinuation(ghost b: byte)
      requires AtStart() && Rsv(b) == 0
      requires fin == Fin(b) && opcode == Opcode(b) == 0
      modifies this`framingState, this`frame, this`statusCode, this`opcode, this`current, messageFrame`fin
      ensures AtPayloadLength() || IsClosed()
      ensures current == OpenFrame(old(current), b)
    {
      framingState := PAYLOAD_LENGTH;
      frame := messageFrame;
      if !frame.fin {
        opcode := frame.opcode;
      }
      if frame.fin || opcode == 0 {
        Close(STATUS_PROTOCOL_ERROR);
      } else {
        frame.fin := fin;
        current := current.(phase := Length(Head(fin, opcode)));
      }
    }

    method CaseStart(block: seq<byte>) returns (fallThrough: bool)
      requires AtStart() && blockOffset < |block|
      modifies this, messageFrame, controlFrame
      ensures AtPayloadLength() || IsClosed()
      ensures current == OpenFrame(old(current), block[old(blockOffset)])
      ensures blockOffset == old(blockOffset) + 1 || (framingState == CLOSE && blockOffset == old(blockOffset))
      ensures fallThrough <==> framingState != CLOSE && blockOffset < |block|
    {
      var b := block[blockOffset];
      ReservedBits(b);
      if Rsv1(b) != 0 || Rsv2(b) != 0 || Rsv3(b) != 0 {
        Close(STATUS_PROTOCOL_ERROR);
        return false;
      }
      fin, opcode := Fin(b), Opcode(b);
      blockOffset := blockOffset + 1;
      payloadLength, payloadLengthBytesRemaining := 0, 0;
      if opcode >= 8 {
        StartControl(b);
      } else if opcode != 0 {
        StartMessage(b);
      } else {
        StartContinuation(b);
      }
      return framingState != CLOSE && blockOffset < |block|;
    }

    method ReadSecondByte(b: byte)
      modifies this`blockOffset, this`masking, this`payloadLength, this`payloadLengthBytesRemaining
      ensures blockOffset == old(blockOffset) + 1 && masking == if Masked(b) then 1 else 0
      ensures payloadLengthBytesRemaining == ExtraLengthBytes(Length7(b))
      ensures payloadLength == if payloadLengthBytesRemaining == 0 then Length7(b) else 0
      ensures payloadLengthBytesRemaining == 0 ==> 0 <= payloadLength <= 125
    {
      payloadLength := Length7(b);
      masking := if Masked(b) then 1 else 0;
      blockOffset := blockOffset + 1;
      if payloadLength == 126 {
        payloadLength, payloadLengthBytesRemaining := 0, 2;
      } else if payloadLength == 127 {
        payloadLength, payloadLengthBytesRemaining := 0, 8;
      } else {
        payloadLengthBytesRemaining := 0;
      }
    }

    method CasePayloadLength(block: seq<byte>) returns (fallThrough: bool)
      requires AtPayloadLength() && blockOffset < |block|
      modifies this`framingState, this`statusCode, this`blockOffset, this`masking, this`current
      modifies this`payloadLength, this`payloadLengthBytesRemaining
      ensures AtPayloadLengthExt() || IsClosed()
      ensures current == TakeLength(old(current), block[old(blockOffset)])
      ensures blockOffset == old(blockOffset) + 1
      ensures fallThrough <==> framingState != CLOSE && blockOffset < |block|
    {
      ghost var b := block[blockOffset];
      ReadSecondByte(block[blockOffset]);
      SecondByte(current, b);
      if masking == 0 || (opcode >= 0x8 && payloadLengthBytesRemaining != 0) {
        Close(STATUS_PROTOCOL_ERROR);
        return false;
      }
      framingState := PAYLOAD_LENGTH_EXT;
      current := current.(phase := AfterSecondByte(Head(fin, opcode), payloadLengthBytesRemaining, payloadLength));
      return blockOffset < |block|;
    }

    /** The loop over the extended length bytes. */
    method ReadExtendedLength(block: seq<byte>)
      requires current.Valid() && current.Running? && current.Consistent(Head(fin, opcode))
      requires payloadLengthBytesRemaining <= 8 && blockOffset <= |block|
      modifies this`blockOffset, this`payloadLength, this`payloadLengthBytesRemaining
      ensures old(blockOffset) <= blockOffset <= |block| && payloadLengthBytesRemaining <= 8
      ensures payloadLengthBytesRemaining > 0 ==> blockOffset == |block|
      ensures Run(protocolVersion, Lengthening(), block, blockOffset)
              == old(Run(protocolVersion, Lengthening(), block, blockOffset))
    {
      while payloadLengthBytesRemaining > 0 && blockOffset < |block|
        invariant old(blockOffset) <= blockOffset <= |block| && payloadLengthBytesRemaining <= 8
        invariant Run(protocolVersion, Lengthening(), block, blockOffset)
                  == old(Run(protocolVersion, Lengthening(), block, blockOffset))
        decreases payloadLengthBytesRemaining
      {
        ghost var next := Lengthening();
        LengthenedTakesByte(protocolVersion, current, Head(fin, opcode), payloadLengthBytesRemaining, payloadLength,
                            block[blockOffset]);
        payloadLength := Int64(payloadLength * 256);
        payloadLength := Int64(payloadLength + block[blockOffset]);
        blockOffset := blockOffset + 1;
        payloadLengthBytesRemaining := payloadLengthBytesRemaining - 1;
        assert Lengthening() == Step(protocolVersion, next, block[blockOffset - 1]);
      }
    }

    /** The reference parser in the middle of the length bytes. */
    ghost function Lengthening(): (p: Parser)
      reads this
      requires current.Valid() && current.Running? && current.Consistent(Head(fin, opcode))
      requires payloadLengthBytesRemaining <= 8
      ensures p.Valid()
    {
      Lengthened(protocolVersion, current, Head(fin, opcode), payloadLengthBytesRemaining, payloadLength)
    }

    method CasePayloadLengthExt(block: seq<byte>) returns (fallThrough: bool)
      requires AtPayloadLengthExt() && blockOffset <= |block|
      modifies this`framingState, this`statusCode, this`blockOffset, this`payloadLength
      modifies this`payloadLengthBytesRemaining, this`current
      ensures IsClosed() || AtMask() || (AtPayloadLengthExt() && blockOffset == |block|)
      ensures old(blockOffset) <= blockOffset <= |block| && Future(block) == old(Future(block))
      ensures fallThrough <==> framingState == MASK && blockOffset < |block|
    {
      hide Run;
      assert Lengthening() == current;
      ReadExtendedLength(block);
      current := Lengthening();
      if payloadLengthBytesRemaining == 0 {
        if payloadLength < 0 || payloadLength > PAYLOAD_LIMIT {
          framingState := CLOSE;
          statusCode := if protocolVersion >= 13 then STATUS_MESSAGE_TOO_LARGE else STATUS_RESERVED;
          return false;
        }
        // The source's other arm, for a frame without a mask, is dead: such a frame was refused above.
        assert masking != 0;
        framingState := MASK;
      }
      return blockOffset < |block|;
    }

    /** The loop over the mask bytes. */
    method ReadMask(block: seq<byte>)
      requires current.Valid() && current.Running? && current.Consistent(Head(fin, opcode))
      requires maskIndex < 4 && payloadLength >= 0 && blockOffset <= |block|
      modifies this`blockOffset, this`mask, this`maskIndex
      ensures old(blockOffset) <= blockOffset <= |block| && maskIndex <= 4
      ensures maskIndex < 4 ==> blockOffset == |block|
      ensures maskIndex == 4 ==> blockOffset > old(blockOffset)
      ensures Run(protocolVersion, CollectingMask(), block, blockOffset)
              == old(Run(protocolVersion, CollectingMask(), block, blockOffset))
    {
      hide Step, Collecting;
      while maskIndex < 4 && blockOffset < |block|
        invariant old(blockOffset) <= blockOffset <= |block| && maskIndex <= 4
        invariant maskIndex == 4 ==> blockOffset > old(blockOffset)
        invariant Run(protocolVersion, CollectingMask(), block, blockOffset)
                  == old(Run(protocolVersion, CollectingMask(), block, blockOffset))
        decreases 4 - maskIndex
      {
        ghost var got := mask[..maskIndex];
        CollectingTakesByte(protocolVersion, current, Head(fin, opcode), payloadLength, got, block[blockOffset]);
        mask := mask[maskIndex := block[blockOffset]];
        blockOffset := blockOffset + 1;
        maskIndex := maskIndex + 1;
        assert mask[..maskIndex] == got + [block[blockOffset - 1]];
      }
    }

    /** The reference parser with the mask bytes taken so far. */
    ghost function CollectingMask(): (p: Parser)
      reads this
      requires current.Valid() && current.Running? && current.Consistent(Head(fin, opcode))
      requires maskIndex <= 4 && payloadLength >= 0
      ensures p.Valid()
    {
      Collecting(current, Head(fin, opcode), payloadLength, mask[..maskIndex])
    }

    method CaseMask(block: seq<byte>) returns (fallThrough: bool)
      requires AtMask() && blockOffset <= |block|
      modifies this`framingState, this`blockOffset, this`mask, this`maskIndex, this`maskOffset, this`masking
      modifies this`current
      ensures AtExtensionData() || (AtMask() && blockOffset == |block|)
      ensures old(blockOffset) <= blockOffset <= |block| && Future(block) == old(Future(block))
      ensures framingState == EXTENSION_DATA ==> blockOffset > old(blockOffset)
      ensures fallThrough <==> framingState == EXTENSION_DATA
    {
      hide Run, Settle;
      assert CollectingMask() == Settle(current);
      ReadMask(block);
      ghost var head := Head(fin, opcode);
      if maskIndex == 4 {
        assert mask[..4] == mask;
        current := current.(phase := Payload(head, payloadLength, mask));
        CompleteMask();
        return true;
      }
      current := current.(phase := Masking(head, payloadLength, mask[..maskIndex]));
      return false;
    }

    method CompleteMask()
      requires framingState == MASK && InFrame() && maskIndex == 4 && masking == 1
      requires 0 <= payloadLength <= PAYLOAD_LIMIT
      requires current.phase == Payload(Head(fin, opcode), payloadLength, mask)
      modifies this`framingState, this`maskIndex, this`maskOffset, this`masking
      ensures AtExtensionData()
    {
      hide KeyAt, Parser.Valid, Parser.Consistent;
      framingState := EXTENSION_DATA;
      maskOffset := 0;
      maskIndex := 0;
      if mask[0] == 0 && mask[1] == 0 && mask[2] == 0 && mask[3] == 0 {
        masking := 0;
        assert mask == ZERO_KEY;
      }
      KeyAtStart(mask);
    }

    method CaseExtensionData()
      requires AtExtensionData()
      modifies this`framingState, controlFrame`applicationData, messageFrame`applicationData
      ensures AtApplicationData()
    {
      if payloadLength > 0 {
        frame.Realloc(frame.applicationDataOffset + payloadLength);
      }
      framingState := APPLICATION_DATA;
    }

    /** The data of the current piece of payload, unmasked. */
    ghost function Plain(block: seq<byte>, length: nat): seq<byte>
      reads this`blockOffset, this`mask, this`maskOffset
      requires blockOffset + length <= |block|
    {
      Mask(KeyAt(mask, maskOffset), block[blockOffset..blockOffset + length])
    }

    /** There is room for `length` more bytes of data. */
    ghost predicate Room(length: nat)
      reads this`frame, controlFrame, messageFrame
    {
      && (frame == controlFrame || frame == messageFrame)
      && frame.applicationDataOffset + length <= |frame.applicationData|
    }

    /** The loop that unmasks text and validates it, stopping at the first invalid byte. */
    method UnmaskText(block: seq<byte>, length: nat) returns (dataOffset: nat)
      requires Room(length) && Utf8.IsState(frame.utf8State) && blockOffset + length <= |block|
      modifies this`blockOffset, this`maskOffset, this`payloadLength, frame`applicationData, frame`utf8State
      ensures old(blockOffset) <= blockOffset <= |block| && |frame.applicationData| == old(|frame.applicationData|)
      ensures length > 0 ==> blockOffset > old(blockOffset)
      ensures frame.utf8State == Utf8.Run(old(frame.utf8State), old(Plain(block, length)))
      ensures frame.utf8State == Utf8.INVALID ==> payloadLength == length
      ensures frame.utf8State != Utf8.INVALID ==>
                && payloadLength == old(payloadLength) && blockOffset == old(blockOffset) + length
                && KeyAt(mask, maskOffset) == old(KeyAt(KeyAt(mask, maskOffset), length))
                && dataOffset == frame.applicationDataOffset + length
                && frame.applicationData[..dataOffset] == old(frame.Data() + Plain(block, length))
    {
      hide Utf8.ValidateUtf8, Utf8.Run, Xor, Mask, KeyAt;
      KeyAtOnward(mask, maskOffset, length);
      ghost var plain, data, start := Plain(block, length), frame.Data(), blockOffset;
      assert Utf8.Run(frame.utf8State, plain[..0]) == frame.utf8State by { Utf8.RunEmpty(frame.utf8State); }
      dataOffset := frame.applicationDataOffset;
      var utf8State := frame.utf8State;
      var i := 0;
      while i < length
        invariant i <= length && blockOffset == start + i && maskOffset == old(maskOffset) + i
        invariant dataOffset == frame.applicationDataOffset + i && payloadLength == old(payloadLength)
        invariant |frame.applicationData| == old(|frame.applicationData|)
        invariant frame.applicationData[..dataOffset] == data + plain[..i]
        invariant Utf8.IsState(utf8State) && utf8State == Utf8.Run(old(frame.utf8State), plain[..i])
      {
        var c := Xor(block[blockOffset], mask[maskOffset % 4]);
        PlainByte(block, start, length, old(maskOffset), i);
        Utf8.RunOneMore(old(frame.utf8State), plain, i);
        blockOffset, maskOffset := blockOffset + 1, maskOffset + 1;
        utf8State := Utf8.ValidateUtf8(utf8State + c);
        if utf8State == Utf8.INVALID {
          payloadLength := length;
          break;
        }
        AppendByte(frame.applicationData, dataOffset, data, plain, i);
        frame.applicationData := frame.applicationData[dataOffset := c];
        dataOffset := dataOffset + 1;
        i := i + 1;
      }
      frame.utf8State := utf8State;
      assert plain[..length] == plain;
    }

    lemma PlainByte(block: seq<byte>, start: nat, length: nat, offset: nat, i: nat)
      requires start + length <= |block| && i < length
      ensures Mask(KeyAt(mask, offset), block[start..start + length])[i]
              == Xor(block[start + i], mask[(offset + i) % 4])
    {
      MaskAt(KeyAt(mask, offset), block[start..start + length], i);
      KeyIndex(mask, offset, i);
    }

    /** The loop that unmasks data other than text. */
    method UnmaskData(block: seq<byte>, length: nat) returns (dataOffset: nat)
      requires Room(length) && blockOffset + length <= |block|
      modifies this`blockOffset, this`maskOffset, frame`applicationData
      ensures blockOffset == old(blockOffset) + length
      ensures KeyAt(mask, maskOffset) == old(KeyAt(KeyAt(mask, maskOffset), length))
      ensures |frame.applicationData| == old(|frame.applicationData|)
      ensures dataOffset == frame.applicationDataOffset + length
      ensures frame.applicationData[..dataOffset] == old(frame.Data() + Plain(block, length))
    {
      hide Xor, Mask, KeyAt;
      KeyAtOnward(mask, maskOffset, length);
      ghost var plain, data, start := Plain(block, length), frame.Data(), blockOffset;
      dataOffset := frame.applicationDataOffset;
      var i := 0;
      while i < length
        invariant i <= length && blockOffset == start + i && maskOffset == old(maskOffset) + i
        invariant dataOffset == frame.applicationDataOffset + i
        invariant |frame.applicationData| == old(|frame.applicationData|)
        invariant frame.applicationData[..dataOffset] == data + plain[..i]
      {
        PlainByte(block, start, length, old(maskOffset), i);
        AppendByte(frame.applicationData, dataOffset, data, plain, i);
        frame.applicationData := frame.applicationData[dataOffset := Xor(block[blockOffset], mask[maskOffset % 4])];
        dataOffset, blockOffset, maskOffset := dataOffset + 1, blockOffset + 1, maskOffset + 1;
        i := i + 1;
      }
      assert plain[..length] == plain;
    }

    /** The loop that validates copied text. */
    method ValidateText(start: nat, length: nat)
      requires (frame == controlFrame || frame == messageFrame) && start + length <= |frame.applicationData|
      requires Utf8.IsState(frame.utf8State)
      modifies this`payloadLength, frame`utf8State
      ensures frame.utf8State == Utf8.Run(old(frame.utf8State), frame.applicationData[start..start + length])
      ensures payloadLength == if frame.utf8State == Utf8.INVALID then length else old(payloadLength)
    {
      hide Utf8.ValidateUtf8, Utf8.Run;
      ghost var plain := frame.applicationData[start..start + length];
      var utf8State := frame.utf8State;
      var i := start;
      assert plain[..0] == [];
      Utf8.RunEmpty(utf8State);
      while i < start + length
        invariant start <= i <= start + length && payloadLength == old(payloadLength)
        invariant Utf8.IsState(utf8State) && utf8State == Utf8.Run(old(frame.utf8State), plain[..i - start])
      {
        assert frame.applicationData[i] == plain[i - start];
        Utf8.RunOneMore(old(frame.utf8State), plain, i - start);
        utf8State := Utf8.ValidateUtf8(utf8State + frame.applicationData[i]);
        if utf8State == Utf8.INVALID {
          payloadLength := length;
          break;
        }
        i := i + 1;
      }
      frame.utf8State := utf8State;
      assert plain[..length] == plain;
    }

    /** The bulk copy for a zero mask. */
    method CopyData(block: seq<byte>, length: nat) returns (dataOffset: nat)
      requires Room(length) && blockOffset + length <= |block| && mask == ZERO_KEY
      requires opcode == OPCODE_TEXT ==> Utf8.IsState(frame.utf8State)
      modifies this`blockOffset, this`payloadLength, frame`applicationData, frame`utf8State
      ensures blockOffset == old(blockOffset) + length && |frame.applicationData| == old(|frame.applicationData|)
      ensures dataOffset == frame.applicationDataOffset + length
      ensures KeyAt(mask, maskOffset) == old(KeyAt(KeyAt(mask, maskOffset), length))
      ensures frame.applicationData[..dataOffset] == old(frame.Data() + Plain(block, length))
      ensures frame.utf8State == if opcode == OPCODE_TEXT then Utf8.Run(old(frame.utf8State), old(Plain(block, length)))
                                 else old(frame.utf8State)
      ensures payloadLength ==
              if opcode == OPCODE_TEXT && frame.utf8State == Utf8.INVALID then length else old(payloadLength)
    {
      hide Utf8.Run, Mask;
      ghost var plain := block[blockOffset..blockOffset + length];
      ZeroMask(plain);
      var start := frame.applicationDataOffset;
      frame.applicationData := frame.applicationData[..start] + block[blockOffset..blockOffset + length]
                               + frame.applicationData[start + length..];
      assert frame.applicationData[start..start + length] == plain;
      if opcode == OPCODE_TEXT {
        ValidateText(start, length);
      }
      dataOffset := start + length;
      blockOffset := blockOffset + length;
    }

    predicate InvalidText()
      reads this, controlFrame, messageFrame
    {
      opcode == OPCODE_TEXT && messageFrame.utf8State == Utf8.INVALID
    }

    /** A validation failure has just been found in the text of the message frame. */
    ghost predicate AtInvalidText()
      reads this, controlFrame, messageFrame
    {
      && framingState == APPLICATION_DATA && controlFrame != messageFrame && frame == messageFrame && InvalidText()
      && payloadLength == 0 && current.events == events
    }

    /** Takes the next `length` payload bytes by whichever loop the source uses for them. */
    method TakeBytes(block: seq<byte>, length: nat) returns (dataOffset: nat)
      requires AtApplicationData() && length <= payloadLength && blockOffset + length <= |block|
      modifies this`blockOffset, this`maskOffset, this`payloadLength, frame`applicationData, frame`utf8State
      ensures old(blockOffset) <= blockOffset <= |block| && |frame.applicationData| == old(|frame.applicationData|)
      ensures frame.utf8State == if opcode == OPCODE_TEXT then Utf8.Run(old(frame.utf8State), old(Plain(block, length)))
                                 else old(frame.utf8State)
      ensures opcode == OPCODE_TEXT && frame.utf8State == Utf8.INVALID ==> payloadLength == length
      ensures length > 0 ==> blockOffset > old(blockOffset)
      ensures opcode != OPCODE_TEXT || frame.utf8State != Utf8.INVALID ==>
                && payloadLength == old(payloadLength) && blockOffset == old(blockOffset) + length
                && KeyAt(mask, maskOffset) == old(KeyAt(KeyAt(mask, maskOffset), length))
                && dataOffset == frame.applicationDataOffset + length
                && frame.applicationData[..dataOffset] == old(frame.Data() + Plain(block, length))
    {
      hide Utf8.Run, Mask, KeyAt;
      if masking != 0 {
        if opcode == OPCODE_TEXT {
          dataOffset := UnmaskText(block, length);
        } else {
          dataOffset := UnmaskData(block, length);
        }
      } else {
        dataOffset := CopyData(block, length);
      }
    }

    method TakePiece(block: seq<byte>, length: nat)
      requires AtApplicationData() && length <= payloadLength && blockOffset + length <= |block|
      modifies this`blockOffset, this`maskOffset, this`payloadLength
      modifies frame`applicationData, frame`utf8State, frame`applicationDataOffset
      ensures old(blockOffset) <= blockOffset <= |block| && (length > 0 ==> blockOffset > old(blockOffset))
      ensures frame.utf8State == if opcode == OPCODE_TEXT then Utf8.Run(old(frame.utf8State), old(Plain(block, length)))
                                 else old(frame.utf8State)
      ensures InvalidText() ==> payloadLength == 0
      ensures !InvalidText() ==>
                && payloadLength == old(payloadLength) - length && blockOffset == old(blockOffset) + length
                && KeyAt(mask, maskOffset) == old(KeyAt(KeyAt(mask, maskOffset), length))
                && frame.applicationDataOffset + payloadLength <= |frame.applicationData|
                && Utf8.IsState(messageFrame.utf8State)
                && var q := Grown(old(current), payloadLength, KeyAt(mask, maskOffset), messageFrame.utf8State,
                                  old(Plain(block, length)));
                   FrameHolds(q.message, q.control)
    {
      hide Utf8.Run, Mask, KeyAt;
      var dataOffset := TakeBytes(block, length);
      payloadLength := payloadLength - length;
      frame.applicationDataOffset := dataOffset;
    }

    method AbsorbPayload(block: seq<byte>, length: nat)
      requires AtApplicationData() && length <= payloadLength && blockOffset + length <= |block|
      modifies this`blockOffset, this`maskOffset, this`payloadLength, this`current, controlFrame, messageFrame
      ensures old(blockOffset) <= blockOffset <= |block| && (length > 0 ==> blockOffset > old(blockOffset))
      ensures InvalidText() ==> AtInvalidText() && old(Future(block)) == Closed(STATUS_INVALID_UTF8, events)
      ensures !InvalidText() ==>
                payloadLength == old(payloadLength) - length && blockOffset == old(blockOffset) + length
      ensures !InvalidText() ==> AtApplicationData()
      ensures !InvalidText() ==> Future(block) == old(Future(block))
    {
      hide Run, Settle, Utf8.Run, Mask, KeyAt, Grown, Parser.Valid, Parser.Consistent;
      ghost var before, plain, key := current, Plain(block, length), KeyAt(mask, maskOffset);
      ghost var utf8: Utf8.State := messageFrame.utf8State;
      StartGrowing(current);
      PayloadRun(protocolVersion, current, payloadLength, key, utf8, [], block, blockOffset, length);
      assert [] + plain == plain;
      TakePiece(block, length);
      if !InvalidText() {
        ghost var final := if opcode == OPCODE_TEXT then Utf8.Run(utf8, plain) else utf8;
        assert final == messageFrame.utf8State;
        GrownShape(before, payloadLength, KeyAt(key, length), final, plain);
        current := Grown(before, payloadLength, KeyAt(key, length), final, plain);
      }
    }

    /** The frame is complete: the source's switch on the opcode and what follows it. */
    method FinishFrame()
      requires payloadLength == 0 && (AtApplicationData() || AtInvalidText())
      modifies this`framingState, this`statusCode, this`events, this`current, controlFrame, messageFrame
      ensures !old(InvalidText()) ==> current == old(Settle(current))
      ensures old(InvalidText()) ==> current == Closed(STATUS_INVALID_UTF8, old(events))
      ensures AtStart() || IsClosed()
    {
      var messageReady := false;
      if opcode == OPCODE_TEXT {
        if (fin && frame.utf8State != Utf8.VALID) || frame.utf8State == Utf8.INVALID {
          Close(STATUS_INVALID_UTF8);
        } else {
          messageReady := true;
        }
      } else if opcode == OPCODE_BINARY {
        messageReady := true;
      } else if opcode == OPCODE_CLOSE {
        Close(STATUS_OK);
      } else if opcode == OPCODE_PING {
        events := events + [Pong(frame.applicationData[..frame.applicationDataOffset])];
      } else if opcode != OPCODE_PONG {
        Close(STATUS_PROTOCOL_ERROR);
      }
      if fin && messageReady {
        events := events + [Deliver(frame.applicationData[..frame.applicationDataOffset])];
      }
      if framingState != CLOSE {
        framingState := START;
        if fin {
          frame.applicationData := [];
          frame.applicationDataOffset := 0;
        }
        current := Settle(current);
      }
    }

    method CaseApplicationData(block: seq<byte>)
      requires AtApplicationData() && blockOffset <= |block|
      modifies this, controlFrame, messageFrame
      ensures old(blockOffset) <= blockOffset <= |block|
      ensures AtStart() || IsClosed() || AtApplicationData()
      ensures Future(block) == old(Future(block))
      ensures AtApplicationData() ==> payloadLength > 0 && blockOffset == |block|
      ensures old(payloadLength) > 0 && old(blockOffset) < |block| ==> blockOffset > old(blockOffset)
    {
      hide Run, Settle;
      var blockLength := |block| - blockOffset;
      var blockDataLength := if payloadLength > blockLength then blockLength else payloadLength;
      AbsorbPayload(block, blockDataLength);
      if payloadLength == 0 {
        ghost var invalid := InvalidText();
        FinishFrame();
        NothingToSettle(current);
        if invalid {
          ClosedStays(protocolVersion, current, block, blockOffset);
        }
      }
    }

    // One execution of the switch, entered at each of its cases; a case that does not break goes on to the next.

    method FromMask(block: seq<byte>)
      requires AtMask() && blockOffset < |block|
      modifies this, controlFrame, messageFrame
      ensures Valid() && old(blockOffset) < blockOffset <= |block| && Future(block) == old(Future(block))
    {
      hide Run, Settle;
      var fallThrough := CaseMask(block);
      if fallThrough {
        CaseExtensionData();
        CaseApplicationData(block);
      }
    }

    method FromPayloadLengthExt(block: seq<byte>)
      requires AtPayloadLengthExt() && blockOffset < |block|
      modifies this, controlFrame, messageFrame
      ensures Valid() && old(blockOffset) <= blockOffset <= |block| && Future(block) == old(Future(block))
      ensures blockOffset > old(blockOffset) || framingState == CLOSE
    {
      hide Run, Settle;
      var fallThrough := CasePayloadLengthExt(block);
      if fallThrough {
        FromMask(block);
      }
    }

    method FromPayloadLength(block: seq<byte>)
      requires AtPayloadLength() && blockOffset < |block|
      modifies this, controlFrame, messageFrame
      ensures Valid() && old(blockOffset) < blockOffset <= |block| && Future(block) == old(Future(block))
    {
      hide Run, Settle;
      ghost var before := current;
      var fallThrough := CasePayloadLength(block);
      FutureStep(protocolVersion, before, current, block, old(blockOffset), blockOffset);
      if fallThrough {
        FromPayloadLengthExt(block);
      }
    }

    method FromStart(block: seq<byte>)
      requires AtStart() && blockOffset < |block|
      modifies this, controlFrame, messageFrame
      ensures Valid() && old(blockOffset) <= blockOffset <= |block| && Future(block) == old(Future(block))
      ensures blockOffset > old(blockOffset) || framingState == CLOSE
    {
      hide Run, Settle;
      ghost var before := current;
      var fallThrough := CaseStart(block);
      FutureStep(protocolVersion, before, current, block, old(blockOffset), blockOffset);
      if fallThrough {
        FromPayloadLength(block);
      }
    }

    method Switch(block: seq<byte>)
      requires Valid() && blockOffset < |block|
      modifies this, controlFrame, messageFrame
      ensures Valid() && old(blockOffset) <= blockOffset <= |block| && Future(block) == old(Future(block))
      ensures blockOffset > old(blockOffset) || (framingState == CLOSE && old(framingState) != CLOSE)
    {
      hide Run, Settle;
      match framingState
      case START => FromStart(block);
      case PAYLOAD_LENGTH => FromPayloadLength(block);
      case PAYLOAD_LENGTH_EXT => FromPayloadLengthExt(block);
      case MASK => FromMask(block);
      case APPLICATION_DATA => CaseApplicationData(block);
      case EXTENSION_DATA => assert false;
      case CLOSE =>
        NothingToSettle(current);
        ClosedStays(protocolVersion, current, block, blockOffset);
        blockOffset := |block|;
        ClosedStays(protocolVersion, current, block, blockOffset);
    }

    /** The inner loop: one block of client data. */
    method ProcessBlock(block: seq<byte>)
      requires Valid()
      modifies this, controlFrame, messageFrame
      ensures Valid() && current == Run(protocolVersion, old(current), block, 0)
    {
      hide Run, Settle;
      blockOffset := 0;
      SettledWhenValid();
      while blockOffset < |block|
        invariant Valid() && blockOffset <= |block|
        invariant Future(block) == Run(protocolVersion, old(current), block, 0)
        decreases |block| - blockOffset, framingState != CLOSE
      {
        Switch(block);
      }
      SettledWhenValid();
      RunEnd(protocolVersion, current, block);
    }

    lemma SettledWhenValid()
      requires Valid()
      ensures Settle(current) == current
    {
    }
  }

  lemma FutureStep(version: int, p: Parser, q: Parser, block: seq<byte>, at: nat, next: nat)
    requires p.Valid() && p.Running? && !p.phase.Payload? && at < |block|
    requires q == Step(version, p, block[at]) && !(q.Running? && q.phase.Payload?)
    requires next == at + 1 || (q.Closed? && next == at)
    ensures Run(version, Settle(q), block, next) == Run(version, Settle(p), block, at)
  {
    if q.Closed? {
      ClosedStays(version, q, block, at);
      ClosedStays(version, q, block, at + 1);
    }
  }

  lemma ZeroKeyAt(offset: nat)
    ensures KeyAt(ZERO_KEY, offset) == ZERO_KEY
  {
  }

  lemma {:induction false} ZeroMask(payload: seq<byte>)
    ensures Mask(ZERO_KEY, payload) == payload
    ensures forall offset: nat :: KeyAt(ZERO_KEY, offset) == ZERO_KEY
    decreases |payload|
  {
    hide KeyAt;
    forall offset: nat
      ensures KeyAt(ZERO_KEY, offset) == ZERO_KEY
    {
      ZeroKeyAt(offset);
    }
    if payload != [] {
      XorLaws(payload[0], 0);
      ZeroMask(payload[1..]);
    }
  }

  /** One more byte stored behind the data. */
  lemma AppendByte(block: seq<byte>, at: nat, front: seq<byte>, plain: seq<byte>, i: nat)
    requires at < |block| && i < |plain| && block[..at] == front + plain[..i]
    ensures block[at := plain[i]][..at + 1] == front + plain[..i + 1]
  {
  }

  /** The outer loop: reads blocks until the parse closes or the client sends no more.
      `statusCode` goes into the CLOSE frame that the server sends at the end, as the number that the two bytes of
      `statusCodeBuffer` make up, most significant first. */
  method MgwsiWsDataFraming(protocolVersion: int, blocks: seq<seq<byte>>)
    returns (events: seq<Event>, statusCode: nat, statusCodeBuffer: seq<byte>)
    ensures var p := Parse(protocolVersion, Flatten(blocks));
            events == p.events && statusCode == if p.Closed? then p.status else 1000
    ensures |statusCodeBuffer| == 2 && (statusCodeBuffer[0] as int) * 256 + statusCodeBuffer[1] == statusCode
  {
    hide Run, Settle;
    var framing := new DataFraming(protocolVersion);
    var n := 0;
    RunEnd(protocolVersion, framing.current, []);
    while framing.framingState != CLOSE && n < |blocks|
      invariant n <= |blocks| && framing.Valid()
      invariant fresh(framing) && fresh(framing.controlFrame) && fresh(framing.messageFrame)
      invariant framing.protocolVersion == protocolVersion
      invariant framing.current == Run(protocolVersion, INITIAL, Flatten(blocks[..n]), 0)
    {
      FlattenOneMore(blocks, n);
      RunConcat(protocolVersion, INITIAL, Flatten(blocks[..n]), blocks[n], 0);
      framing.ProcessBlock(blocks[n]);
      n := n + 1;
    }
    FlattenSplit(blocks, n);
    RunConcat(protocolVersion, INITIAL, Flatten(blocks[..n]), Flatten(blocks[n..]), 0);
    if framing.framingState == CLOSE {
      ClosedStays(protocolVersion, framing.current, Flatten(blocks[n..]), 0);
    } else {
      assert blocks[n..] == [];
      RunEnd(protocolVersion, framing.current, []);
    }
    events, statusCode := framing.events, framing.statusCode;
    if Parse(protocolVersion, Flatten(blocks)).Closed? {
      WsTheorems.ClosingStatuses(protocolVersion, Flatten(blocks));
    }
    statusCodeBuffer := [statusCode / 256 % 256, statusCode % 256];
  }

  lemma {:induction false} FlattenSplit(blocks: seq<seq<byte>>, n: nat)
    requires n <= |blocks|
    ensures Flatten(blocks) == Flatten(blocks[..n]) + Flatten(blocks[n..])
    decreases n
  {
    if n == 0 {
      assert blocks[0..] == blocks && blocks[..0] == [];
    } else {
      FlattenSplit(blocks[1..], n - 1);
      assert blocks[1..][..n - 1] == blocks[..n][1..];
      assert blocks[1..][n - 1..] == blocks[n..];
    }
  }

  lemma FlattenOneMore(blocks: seq<seq<byte>>, n: nat)
    requires n < |blocks|
    ensures Flatten(blocks[..n + 1]) == Flatten(blocks[..n]) + blocks[n]
  {
    FlattenSplit(blocks[..n + 1], n);
    assert blocks[..n + 1][..n] == blocks[..n];
    assert blocks[..n + 1][n..] == [blocks[n]];
    assert Flatten([blocks[n]]) == blocks[n];
  }
}
