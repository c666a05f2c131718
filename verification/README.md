# The C and JavaScript infrastructure of EWD and Octo, modelled and proved

This project models six parts of the repository that carry real algorithms and proves what they are for.

- **The WebSocket engine of m_apache** (`ws_*.dfy`, `utf8.dfy`). `WsFraming` is the framing loop with its fall-through
  cases, its two frame contexts and its local variables, as a class whose methods update them in place. It is proved
  against `WsParser`, a byte-at-a-time automaton, for every cut of a client stream into blocks. `WsFrames`, `WsVerdict`
  and `WsTheorems` then relate the automaton to RFC 6455: it inverts every client encoding, and on arbitrary input it
  delivers whole messages only and stops at the first violation, with the status of that violation. `Utf8` relates the
  validation table to RFC 3629. `WsServer` and `WsProtocol` are the other direction: frame headers, and the protocol by
  which any number of threads write through one mutex. `WsSession` joins the two: in every interleaving the client gets
  the pongs and the closing status that the parser owes it, up to a CLOSE by another thread. `WsProgress` shows that no
  state of a session is stuck.
- **The wire codecs of m_apache**: sizes in base 10 and 62 (`sizes.dfy`), item headers and growing buffers
  (`items.dfy`), base64 with line breaks (`base64.dfy`), and the reader that looks for a terminator across reads and
  buffers (`terminator.dfy`). The loops of the source are methods over arrays, proved against functions whose round
  trips are proved beside them.
- **The circular lists of Octo** (`rings.dfy`), on heap nodes with `next` and `prev`.
- **The request scheduler of ewdGateway** (`gateway.dfy`): a class with the fields of the gateway object, tied to a state
  machine of which conservation, order and progress are proved over whole runs.
- **The upgrade of plan definitions in Octo** (`upgrade.dfy`): any number of processes in any interleaving, and the
  function itself, every process of an interleaving being shown to follow it.
- **Generated constraint names in Octo** (`constraint_name.dfy`): the join of column names, truncation, and what a
  name tells about its constraint.

`ws_bytes.dfy` holds bytes and masking, `basics.dfy` what several modules share.

Six results say where the code departs from what one would expect of it.

- A process that finds the plan format already current in its second check returns success without releasing the lock
  (lines 72 to 76 of `auto_upgrade_plan_definition_if_needed.c`), although the comment on line 73 says that the lock is
  released. `Upgrade.LockKeptExactlyWhenAlreadyCurrent` gives the exact condition, `Upgrade.LockCanBeKept` a run, and
  `Upgrade.KeptLockShutsOut` what it does to others that wait for the lock.
- The terminator test asks for strictly more bytes than the terminator has, so an empty payload is never recognised;
  `Terminator.ReceiveResponse` says so, and says exactly for which payloads reading byte by byte finds the right end.
- The base64 decoder does not refuse input for ending inside a group, nor accept it for ending between groups
  (`Base64.EndInsideGroup`, `EndBetweenGroups`). It fails exactly when no group of four symbols ends with '=' and more
  than three characters, skipped ones included, follow the last whole group (`Base64.DecodeFailsExactly`).
- One frame within the frame limit can deliver a message whose size the header of the way to the database cannot
  announce (`WsSession.DeliveryCanExceedHeader`); the sizes that fit are exactly those below 62 to the fourth power
  (`Sizes.HeaderFitsExactly`).
- The encoder of base-62 sizes meets powers beyond a 32-bit `int` exactly from 62 to the fifth power on
  (`Sizes.PowersFitExactly`).
- Generated constraint names of different kinds or numbers can coincide. They stay apart, for every table name, exactly
  when the buffer has room for both tails (`ConstraintName.NamesApartExactlyWithRoom`, in bytes `RoomInBytes`); without
  it `NamesClash` gives a table for which they coincide. A buffer for an identifier always has room
  (`IdentifiersHaveRoom`). The final assertion of the source holds exactly when there is room (`Truncate`).

## Model

| member | source | states |
|---|---|---|
| WsFraming.MgwsiWsDataFraming | ewd/m_apache/m_apache.c:3053-3376 | For every way of cutting a client stream into blocks, the deliveries, the pongs, their order and the closing status are those of the byte-at-a-time parser on the whole stream; the two bytes for the CLOSE frame make up the closing status, the high byte first |
| WsFraming.DataFraming.ProcessBlock | ewd/m_apache/m_apache.c:3085-3358 | One block takes the loop's variables from agreement with the byte parser to agreement with it after the block's bytes, wherever the block ends |
| WsFraming.DataFraming.Switch | ewd/m_apache/m_apache.c:3088-3357 | One execution of the switch, entered at any case with whatever fall-through follows, keeps that agreement and either takes a byte or closes |
| WsFraming.DataFraming.CaseStart | ewd/m_apache/m_apache.c:3090-3144 | Reserved bits, control, opening and continuation frames are treated as the byte parser treats the first byte, and the case falls through exactly when it did not close and the block has more |
| WsFraming.DataFraming.CasePayloadLength | ewd/m_apache/m_apache.c:3145-3172 | The second byte: mask required, control frames short, number of length bytes to come |
| WsFraming.DataFraming.CasePayloadLengthExt | ewd/m_apache/m_apache.c:3173-3197 | Taking the length bytes at hand in 64-bit arithmetic, over any number of blocks, and the size limit, change nothing of what the byte parser will do |
| WsFraming.DataFraming.CaseMask | ewd/m_apache/m_apache.c:3198-3213 | Likewise for the mask bytes; a frame whose mask is complete goes straight on, even at the end of a block |
| WsFraming.DataFraming.CaseExtensionData | ewd/m_apache/m_apache.c:3214-3227 | Room for the announced payload is there before any of it is stored |
| WsFraming.DataFraming.UnmaskText | ewd/m_apache/m_apache.c:3238-3255 | Unmasked bytes are appended and validated in step; the state is that of the table run over the whole piece, and a failure leaves the piece as the rest of the frame |
| WsFraming.DataFraming.UnmaskData | ewd/m_apache/m_apache.c:3256-3261 | The piece is appended unmasked with the key rotated by what came before |
| WsFraming.DataFraming.CopyData | ewd/m_apache/m_apache.c:3263-3280 | For a zero mask, bulk copy and later validation have the effect of unmasking byte by byte |
| WsFraming.DataFraming.TakeBytes | ewd/m_apache/m_apache.c:3238-3280 | The masked and the unmasked path have one outcome |
| WsFraming.DataFraming.FinishFrame | ewd/m_apache/m_apache.c:3283-3346 | A complete frame is delivered, answered, dropped or refused as the byte parser does it, and its data is kept exactly while its message is unfinished |
| WsFraming.DataFraming.CaseApplicationData | ewd/m_apache/m_apache.c:3228-3348 | A piece of payload of any size changes nothing of what the byte parser will do; the case ends with the frame finished, the parse closed or the block used up |
| WsParser.PayloadRun | ewd/m_apache/m_apache.c:3235-3281 | Taking payload bytes in bulk, with validation of text, equals taking them one by one |
| WsParser.RunConcat | ewd/m_apache/m_apache.c:3085-3088 | The byte parser does not see where its input is cut |
| WsParser.ClosedStays | ewd/m_apache/m_apache.c:3349-3351 | Once closed, the parser ignores everything |
| WsTheorems.ParserInvertsClient | ewd/m_apache/m_apache.c:3089-3347 | Any list of text and binary messages, in any fragments, with any pings and pongs between fragments, any keys and any length forms, is delivered byte for byte and in order, with one pong for each ping |
| WsTheorems.FramesAreRead | ewd/m_apache/m_apache.c:3089-3347 | Encoded legal frames take the parser to the state and the events that RFC 6455 gives them, whatever follows |
| WsTheorems.EveryStream | ewd/m_apache/m_apache.c:3089-3357 | Any input is a sequence of legal frames and a tail that begins with none; the events are those of the frames, and the tail alone decides whether the parse is closed and with which status |
| WsTheorems.NothingAfterViolation | ewd/m_apache/m_apache.c:3095-3166 | After a reserved bit, an unmasked frame, a fragmented or extended-length control frame, an orphan continuation or a new opcode inside a message, the parse is closed with a protocol error and nothing more is delivered |
| WsTheorems.OneFrameOnTheWire | ewd/m_apache/m_apache.c:3102-3346 | On a fresh connection, a frame with FIN, a mask and up to 125 bytes does what its first byte says: 0x81 delivers text or closes with 1007 if it is no UTF-8, 0x82 delivers, 0x89 is answered with its payload, 0x8A is ignored, 0x88 closes with 1000, and any other of 0x80 to 0x8F closes with 1002 |
| WsTheorems.OversizedOnTheWire | ewd/m_apache/m_apache.c:3173-3186 | An eight-byte length closes the connection exactly when it is above 33554432, with status 1009 from protocol version 13 on and 1004 before |
| WsTheorems.FirstByteDecides | ewd/m_apache/m_apache.c:3090-3144 | The first byte of a stream closes it with 1002 exactly unless it is 0x01 to 0x07 or 0x81 to 0x8F |
| WsTheorems.SecondByteDecides | ewd/m_apache/m_apache.c:3145-3166 | The second byte closes it with 1002 exactly when it is below 0x80, or 0xFE or 0xFF in a control frame |
| WsTheorems.HelloIsRead | ewd/m_apache/m_apache.c:3090-3346 | The masked text frame of section 5.7 of RFC 6455, eleven bytes, is delivered as "Hello" |
| WsTheorems.ClosingStatuses | ewd/m_apache/m_apache.c:3095-3312 | A closed parse has status 1000, 1002, 1007, or that for a frame too large, which is 1009 or 1004 by the protocol version |
| WsTheorems.PongsAreShort | ewd/m_apache/m_apache.c:3159-3163 | On any input, no answer to a ping has more than 125 bytes |
| WsTheorems.DeliveriesAreMessages | ewd/m_apache/m_apache.c:3283-3347 | On any input, every delivery is the joined payload of one opening data frame and its continuations, and valid UTF-8 if it was opened as text |
| WsTheorems.MessagesMean | ewd/m_apache/m_apache.c:3119-3138 | The frames of any messages are legal and mean those messages and the answers to the pings among them |
| WsTheorems.FragmentsMean | ewd/m_apache/m_apache.c:3107-3138 | Control frames between fragments do not disturb the message under construction |
| WsTheorems.OriginOfDelivery | ewd/m_apache/m_apache.c:3283-3347 | Each event that delivers has its opening frame and its final frame among the legal frames |
| WsVerdict.JudgeDecides | ewd/m_apache/m_apache.c:3090-3312 | The first frame of a stream, complete or not, decides what the parser does: wait, close with the status of the first violation, or accept the frame and go on behind it |
| WsVerdict.HeaderDecides | ewd/m_apache/m_apache.c:3090-3213 | The same for the header of a frame, with the order in which its violations are noticed |
| WsVerdict.PayloadDecides | ewd/m_apache/m_apache.c:3228-3312 | The same for the payload: text is refused at the first byte that no continuation can repair |
| WsVerdict.LimitTest | ewd/m_apache/m_apache.c:3173-3186 | The test on the 64-bit accumulator, negative or above the limit, holds exactly when the announced number is above the limit, although eight bytes can overflow the accumulator |
| WsVerdict.AccumulateIsValue | ewd/m_apache/m_apache.c:3174-3178 | The accumulator is the big-endian value of the length bytes, reduced to 64 bits |
| WsParser.Int64InRange | ewd/m_apache/m_apache.c:3174-3178 | What a 64-bit integer keeps of a number lies in its range and differs from the number by a multiple of 2 to the 64 |
| WsFrames.AcceptIsSound | ewd/m_apache/m_apache.c:3090-3312 | An accepted frame is legal and its encoding is exactly the bytes it was read from |
| WsFrames.LegalIsAccepted | ewd/m_apache/m_apache.c:3090-3312 | The encoding of a legal frame, whatever follows it, is accepted as that frame |
| WsFrames.FirstFrameStands | ewd/m_apache/m_apache.c:3102-3200 | Reading a frame and encoding it again gives back its bytes |
| WsFrames.FirstFrameOfEncoding | ewd/m_apache/m_apache.c:3102-3200 | Encoding a frame and reading it again gives back the frame |
| WsBytes.MaskTwice | ewd/m_apache/m_apache.c:3246-3259 | Unmasking undoes masking, for every key |
| WsBytes.MaskAt | ewd/m_apache/m_apache.c:3246-3259 | Byte i meets byte i modulo 4 of the key |
| WsBytes.XorIsBitwise | ewd/m_apache/m_apache.c:3246-3259 | Each of the eight bits of the exclusive or is set exactly when the bits of the two bytes differ |
| WsBytes.BitsDetermine | ewd/m_apache/m_apache.c:3246-3259 | The bits of a byte determine it, so that leaves one exclusive or |
| Utf8.AcceptsExactlyWellFormed | ewd/m_apache/m_apache.c:836-973 | The table ends in its valid state exactly on the encodings of sequences of Unicode scalar values |
| Utf8.FailsExactlyWhenHopeless | ewd/m_apache/m_apache.c:836-973 | It reports an error exactly when no continuation makes the bytes well formed, so at the first such byte |
| Utf8.RunConcat | ewd/m_apache/m_apache.c:3242-3276 | Validation composes over the fragments of a message |
| Utf8.ValidateUtf8 | ewd/m_apache/m_apache.c:823-973 | Every entry of the table is the error state or a row it can be indexed from, so the table is never indexed outside |
| Utf8.RunEncoded | ewd/m_apache/m_apache.c:836-973 | Every encoded character takes the table from its valid state back to it |
| Utf8.AcceptedIsWellFormed | ewd/m_apache/m_apache.c:836-973 | From accepted bytes a text is found whose encoding they are |
| WsServer.BuildHeader | ewd/m_apache/m_apache.c:2989-3008 | The header buffer holds the RFC 6455 header with FIN, no mask and the length in big-endian order, and does not overflow |
| WsServer.HeaderIsShortest | ewd/m_apache/m_apache.c:2990-3008 | No length form that can hold the length is shorter than the one chosen |
| WsServer.FirstByteOnTheWire | ewd/m_apache/m_apache.c:2970-2989 | The first byte on the wire is 0x81 for message type 0, 0x82 for 128, 0x89 for 256, 0x8A for 257 and 0x88 for every other type |
| WsServer.AccumulatorRecoversLength | ewd/m_apache/m_apache.c:2989-3178 | The parser's own length accumulator recovers every length below 2 to the 63 from the server's length bytes |
| WsServer.ServerFrameReads | ewd/m_apache/m_apache.c:2989-3015 | A client reads back exactly the frame, and nothing from a proper part of it |
| WsServer.ServerFramesRead | ewd/m_apache/m_apache.c:2989-3015 | Frames written one after the other are read back, and a frame cut short adds nothing |
| WsProtocol.WebSocket.ClientSendBlock | ewd/m_apache/m_apache.c:2945-3025 | A call appends one whole frame or nothing, with the first byte that its message type calls for; it sets `closing` exactly for a CLOSE frame |
| WsProtocol.StepsOfCall | ewd/m_apache/m_apache.c:2960-3021 | The steps of a call inside the mutex add up to what the whole call does |
| WsProtocol.ClientSeesWholeFrames | ewd/m_apache/m_apache.c:2960-3021 | In every interleaving of any threads the client reads back exactly the completed frames, in the order of their checks, with no frame after a CLOSE; when nobody holds the mutex the output is whole frames |
| WsProtocol.NothingAfterClose | ewd/m_apache/m_apache.c:2962-2986 | Once a CLOSE frame is out, no step of any thread adds a byte |
| WsProtocol.CloseIsSent | ewd/m_apache/m_apache.c:3366-3375 | When the framing thread has taken the output away, exactly one CLOSE frame was sent, and as the last |
| WsProtocol.StepHolds | ewd/m_apache/m_apache.c:3081-3427 | Mutual exclusion, the role of `closing` and `obb`, and the output as written frames survive every step of every thread |
| WsProtocol.RunHolds | ewd/m_apache/m_apache.c:3081-3427 | They hold after every run |
| WsSession.FramerKeepsItsWord | ewd/m_apache/m_apache.c:3081-3375 | In every interleaving, what the framing thread begins to write is an initial part of what it owes for the client stream: the pongs of the parser in order, then a CLOSE with the closing status. None of it is dropped unless another thread has begun a CLOSE, which is then the last frame |
| WsSession.ClientGetsWhatIsOwed | ewd/m_apache/m_apache.c:3303-3375 | When the framing thread is done and no other thread has closed the session, everything owed is among the frames the client reads, once and in order, and the last frame of all has opcode 8 and a payload that reads, high byte first, as the status of the parse, or 1000 when the stream simply ended |
| WsSession.PingsAreAnswered | ewd/m_apache/m_apache.c:3303-3369 | For a client that sends messages, pings and pongs, what is owed is one frame with opcode 10 for each ping of the client, in order and with its payload, and then one with opcode 8 whose payload reads as 1000 |
| WsSession.StatusIsReadable | ewd/m_apache/m_apache.c:3366-3368 | The two bytes of a status, read with the high byte first, are the status |
| WsProgress.FinishFrom | ewd/m_apache/m_apache.c:2960-3375 | From every state that keeps the invariant there are steps to the end of the session, in which the framing thread calls for exactly what it still owes and no thread begins a frame but it and the holder of the mutex: no state is stuck |
| WsProgress.SessionCanEnd | ewd/m_apache/m_apache.c:3081-3375 | Every run in which the framing thread has called for a part of what it owes, and has left its loop exactly if that was all, can be continued to the end of the session with all called for; no other thread closes the session meanwhile unless it already had or holds the mutex |
| WsProgress.SomeSessionEnds | ewd/m_apache/m_apache.c:3081-3375 | For every stream and any threads there is a session in which the client reads all that is owed |
| WsSession.DeliveryCanExceedHeader | ewd/m_apache/m_apache.c:3180-3331 | One binary frame within the limit is delivered whole although its size has five digits in base 62 |
| WsSession.FramerUndisturbed | ewd/m_apache/m_apache.c:2962-2986 | No frame that the framing thread calls for is lost while no other thread has begun a CLOSE |
| WsSession.FramerInOrder | ewd/m_apache/m_apache.c:2962-2986 | The framing thread's frames appear in the order of its calls, without gaps |
| WsSession.BegunIsLogged | ewd/m_apache/m_apache.c:2960-3021 | The frames written are those begun by the threads, in the order of their checks |
| Sizes.EncodeSize | ewd/m_apache/m_apache.c:5893-5917 | The loop over powers of 62 gives the numeral of the size, without leading zeros; the last power it computes has as many factors as the numeral has digits and is below 2 to the 31 |
| Sizes.DecodeSize | ewd/m_apache/m_apache.c:5920-5943 | In base 10 the result is what `strtol` reads from any text, cast to `int`; in base 62 it is the number the digits denote, whenever the powers and the sum stay within an `int` |
| Sizes.DigitsAreRead | ewd/m_apache/m_apache.c:5925-5930 | Decimal digits alone are read as the number they denote |
| Sizes.MgwsiPow | ewd/m_apache/m_apache.c:5851-5864 | The power, with every intermediate product a 32-bit `int` |
| Sizes.DigitRoundTrip | ewd/m_apache/m_apache.c:5867-5890 | The two digit maps are inverse on the 62 digits |
| Sizes.DigitsInOrder | ewd/m_apache/m_apache.c:5867-5890 | '0' to '9' are 0 to 9, 'A' to 'Z' are 10 to 35 and 'a' to 'z' are 36 to 61, in both maps |
| Sizes.DigitsIncrease | ewd/m_apache/m_apache.c:5867-5877 | Greater digits have greater codes |
| Sizes.SomeNumerals | ewd/m_apache/m_apache.c:5893-5943 | 62 is "10" and 3843 is "zz" in base 62; 2024 is "We" there and "2024" in base 10 |
| Sizes.DecimalIsRead | ewd/m_apache/m_apache.c:5925-5930 | What `strtol` reads of blanks, a sign, digits and any other text is the number of the digits, negated by a minus sign |
| Sizes.NothingToRead | ewd/m_apache/m_apache.c:5925-5930 | A text that begins with neither a blank, a sign nor a digit is read as 0 |
| Sizes.BeyondLong | ewd/m_apache/m_apache.c:5925-5930 | Beyond the range of a `long` the result is its last number, which is -1 or 0 as an `int` |
| Sizes.NumeralRoundTrip | ewd/m_apache/m_apache.c:5893-5943 | Decoding undoes encoding, for every size and both bases |
| Sizes.NumeralLength | ewd/m_apache/m_apache.c:5907-5912 | A numeral has at most k digits exactly when the size is below the k-th power of the base |
| Sizes.PaddingIsHarmless | ewd/m_apache/m_apache.c:5935-5939 | Zeros on the left change no decoded size |
| Sizes.PowersFitExactly | ewd/m_apache/m_apache.c:5907-5912 | The powers the encoder meets stay below 2 to the 31 exactly for sizes below 62 to the fifth power |
| Sizes.LowDigitsAreNumeral | ewd/m_apache/m_apache.c:5903-5914 | Digits stored from the right up to the first zero quotient are the numeral |
| Sizes.EncodeWsHeader | ewd/m_apache/m_apache.c:5984-5996 | Four padded digits of size and one of type, in the first five bytes |
| Sizes.DecodeWsHeader | ewd/m_apache/m_apache.c:5999-6006 | The size and the type that any five bytes denote, a type that is no digit being 0 |
| Sizes.WsHeaderRoundTrip | ewd/m_apache/m_apache.c:5984-6006 | The WebSocket header carries every size below 62 to the fourth power and every one-digit type |
| Sizes.HeaderFitsExactly | ewd/m_apache/m_apache.c:5989-5993 | A size has the four digits the header has room for exactly when it is below 62 to the fourth power, which the limit on frames exceeds |
| Sizes.WriteSizeField | ewd/m_apache/m_apache.c:4197-4200 | The size written over the five zeros of the request header is the padded field, and no other byte changes |
| Sizes.FieldRoundTrip | ewd/m_apache/m_apache.c:4197-4337 | A padded size field of any width that can hold the size is read back, so the five-digit field for sizes below 62 to the fifth power |
| Items.MemBuffer.Grown | ewd/m_apache/m_apache.c:5593-5595 | The growth loop ends with the least capacity, in whole increments, that suffices |
| Items.MemBuffer.MemCat | ewd/m_apache/m_apache.c:5575-5615 | The buffer is plain append, whether or not it grows, with a zero byte behind the contents |
| Items.MemBuffer.MemCpy | ewd/m_apache/m_apache.c:5541-5572 | The contents are replaced |
| Items.MemBuffer.RequestAdd | ewd/m_apache/m_apache.c:5834-5848 | The contents grow by one encoded element, or by bytes that are formatted already |
| Items.EncodeItemHeader | ewd/m_apache/m_apache.c:5946-5962 | The header holds the digits, the type and the byref flag, for all sizes below ten million |
| Items.DecodeItemHeader | ewd/m_apache/m_apache.c:5965-5981 | The fields of a header; the size is what `strtol` reads from its characters, whatever they are, and the number of the digits when they are digits |
| Items.ElementsRoundTrip | ewd/m_apache/m_apache.c:5834-5981 | Any sequence of elements, whatever their bytes, types and flags, is recovered from its encoding by repeated header decoding |
| Items.ElementReads | ewd/m_apache/m_apache.c:5946-5981 | One element is recovered from the head of any bytes that begin with its encoding |
| Items.ElementsAppend | ewd/m_apache/m_apache.c:5839-5842 | Appending elements, or a buffer of formatted elements, appends to the encoded sequence |
| Items.AddAndReadBack | ewd/m_apache/m_apache.c:5575-5981 | Elements added to a buffer of any initial size and increment are read back from it by the item header decoder |
| Items.AddAll | ewd/m_apache/m_apache.c:5834-5848 | Successive calls append the encoded elements in order |
| Items.ReadAll | ewd/m_apache/m_apache.c:5965-5981 | Repeated calls of the header decoder read what the reading function of the round trip reads |
| Base64.DecodeUndoesEncode | ewd/m_apache/m_apache.c:6112-6220 | Decoding undoes encoding for every byte string and every line length |
| Base64.AlphabetInOrder | ewd/m_apache/m_apache.c:6076-6105 | Both maps follow table 1 of RFC 4648: 'A' to 'Z', 'a' to 'z', '0' to '9', '+' and '/' |
| Base64.AlphabetIsAll | ewd/m_apache/m_apache.c:6091-6108 | Exactly these characters have values below 64, '=' is the padding, and every other character is skipped |
| Base64.FooVectors | ewd/m_apache/m_apache.c:6112-6161 | "", "f", "fo" and "foo" encode to "", "Zg==", "Zm8=" and "Zm9v" |
| Base64.FooBarVectors | ewd/m_apache/m_apache.c:6112-6220 | "foob", "fooba" and "foobar" encode to "Zm9vYg==", "Zm9vYmE=" and "Zm9vYmFy"; the last, with a line break behind every group, to "Zm9v" and "YmFy" in lines |
| Base64.FooBarDecoded | ewd/m_apache/m_apache.c:6164-6220 | These are decoded, line breaks included, to what they encode |
| Base64.GroupIsNumber | ewd/m_apache/m_apache.c:6189-6214 | The bytes of a group are the leading bits of the number that its values make up, as many bytes as there are values before the padding allow |
| Base64.EncodingFits | ewd/m_apache/m_apache.c:6223-6235 | The encoding never exceeds the computed buffer size and fills it, but for one byte exactly when the last group is padded and the groups are a multiple of `quads` |
| Base64.EncodedLength | ewd/m_apache/m_apache.c:6120-6158 | The exact length of an encoding with its line breaks |
| Base64.NewlinesCount | ewd/m_apache/m_apache.c:6153-6157 | A line break for every `quads` full groups, and none when `quads` is 0 |
| Base64.ShiftsAreSextets | ewd/m_apache/m_apache.c:6121-6151 | The wrapping multiplications on single bytes give the four six-bit numbers of RFC 4648 |
| Base64.QuadRoundTrip | ewd/m_apache/m_apache.c:6112-6214 | Each group of one to three bytes survives encoding and decoding, padding included |
| Base64.B64Encode | ewd/m_apache/m_apache.c:6112-6161 | The loop writes exactly the encoding within the computed buffer size and touches nothing behind it |
| Base64.B64Decode | ewd/m_apache/m_apache.c:6164-6220 | The loop returns the decoded bytes, at most three for every four characters, or -1 when the groupwise decoding fails |
| Base64.DecodeFailsExactly | ewd/m_apache/m_apache.c:6172-6219 | Decoding fails exactly when no group of four symbols ends with '=' and more than three characters follow the last whole group |
| Base64.TailAfterEncoding | ewd/m_apache/m_apache.c:6172-6219 | Characters outside the alphabet behind an encoding without line breaks are harmless exactly if they are at most three or the encoding is padded |
| Base64.EndInsideGroup | ewd/m_apache/m_apache.c:6172-6187 | Two characters, which end inside a group, decode to nothing without a failure |
| Base64.EndBetweenGroups | ewd/m_apache/m_apache.c:6172-6187 | A whole group followed by four line breaks is refused |
| Base64.EncodeGroup | ewd/m_apache/m_apache.c:6121-6151 | One pass writes the four characters of its group, padded at the end of the data |
| Base64.ReadSymbol | ewd/m_apache/m_apache.c:6177-6184 | Characters outside the alphabet are skipped |
| Base64.StoreGroup | ewd/m_apache/m_apache.c:6189-6214 | The bytes of a group, none to three by its values |
| Terminator.ReceiveResponse | ewd/m_apache/m_apache.c:4262-4311 | For a payload followed by the terminator, every segmentation of the stream gives exactly the payload if no proper prefix looks terminated; byte by byte, it gives the payload only then; an empty payload is never recognised |
| Terminator.ReceiveAll | ewd/m_apache/m_apache.c:4262-4311 | On any stream and any segmentation, successive calls hand out the bytes up to the first end of a read at which what was received looks terminated, or report that there was none |
| Terminator.Connection.DbReceive | ewd/m_apache/m_apache.c:4240-4311 | One call extends the delivered bytes by its result, carries a terminator-sized overlap to the next call, and signals the end once |
| Terminator.Connection.ReceiveLoop | ewd/m_apache/m_apache.c:4279-4310 | Received bytes are delivered bytes and the overlap; nothing is lost or repeated at a buffer boundary |
| Terminator.OneOutcome | ewd/m_apache/m_apache.c:4290-4294 | A stream without an early terminator has one place where reading can stop |
| Rings.DqInit | ydbocto-aux/src/double_list.h:18-19 | A node becomes a ring of its own |
| Rings.JoinRings | ydbocto-aux/src/double_list.h:25-34 | Splicing two disjoint rings gives one ring, the first followed by the second, writing four pointers only |
| Rings.SplitRing | ydbocto-aux/src/double_list.h:25-34 | The same operation inside one ring splits it in two |
| Rings.AppendUndone | ydbocto-aux/src/double_list.h:25-34 | Done twice, it restores every pointer |
| Rings.DqDel | ydbocto-aux/src/double_list.h:37-42 | The others stay a ring in the same order and the node becomes a ring of its own |
| Rings.OthersStay | ydbocto-aux/src/double_list.h:25-42 | No other ring changes, and deleting the first spliced node takes exactly that node out again |
| Rings.CopyColumnListAliasList | ydbocto-aux/src/copy_column_list_alias_list.c:25-57 | The copy is a ring of fresh nodes with the same length and order; without a table alias the contents are the same, with one each node keeps alias and type, takes the given keywords and has a column list of its own with the column alias found for the original. The source ring is not written to |
| Gateway.Reachable | ewd/node/ewdGateway.js:86-328 | In every reachable state each request is queued, in flight or answered exactly once, dispatch is in arrival order, and none waits while a connection is free |
| Gateway.RunHolds | ewd/node/ewdGateway.js:86-328 | Conservation, order and work conservation over every run of arrivals, completions and timer events |
| Gateway.HandleHolds | ewd/node/ewdGateway.js:287-308 | Each event keeps them; an arrival adds its request, a completion adds the answer to the request of its own connection |
| Gateway.DrainHolds | ewd/node/ewdGateway.js:295-302 | Draining keeps conservation and leaves no request waiting beside a free connection |
| Gateway.CompletionsFinish | ewd/node/ewdGateway.js:168-182 | Without further arrivals, as many completions as there are outstanding requests leave the queue empty and everything answered |
| Gateway.AllCanBeAnswered | ewd/node/ewdGateway.js:168-308 | Such completions exist whenever the pool is not empty, so everything accepted can be answered |
| Gateway.WorkIsUnderWay | ewd/node/ewdGateway.js:287-308 | While anything is outstanding some connection is at work |
| Gateway.EwdGateway.constructor | ewd/node/ewdGateway.js:275-282 | The pool starts with every connection free and nothing sent |
| Gateway.EwdGateway.GetConnection | ewd/node/ewdGateway.js:260-273 | The first free connection is claimed, and no other changes |
| Gateway.EwdGateway.SendRequestToCachey | ewd/node/ewdGateway.js:315-328 | The request goes to the first free connection together with its response object, or nothing changes |
| Gateway.EwdGateway.ProcessQueue | ewd/node/ewdGateway.js:287-308 | The loop ends and does what draining does, a request that found no connection being back at the head of the queue; nothing happens during a drain |
| Gateway.EwdGateway.AddToQueue | ewd/node/ewdGateway.js:86-101 | The object follows the schedule on an arrival |
| Gateway.EwdGateway.CacheyOutput | ewd/node/ewdGateway.js:168-182 | The object follows the schedule on a completion, and status, headers and body, with their defaults, are written to the response object of the request that was answered |
| Gateway.WithDefaults | ewd/node/ewdGateway.js:169-171 | An empty status becomes 200, a missing or empty content type becomes HTML, and nothing else changes |
| Upgrade.AutoUpgradePlanDefinitionIfNeeded | ydbocto-aux/src/auto_upgrade_plan_definition_if_needed.c:41-107 | Whatever the database answers, the calls made and the status returned are those of the process automaton, and are listed in terms of the answers alone, with format 40 |
| Upgrade.OutcomeIsExact | ydbocto-aux/src/auto_upgrade_plan_definition_if_needed.c:56-106 | A process that the automaton follows succeeds exactly when the first read finds format 40, or, no call before failing, the second one does under the lock or the discard, the recording and the release succeed; and the calls it makes are listed |
| Upgrade.NothingToDo | ydbocto-aux/src/auto_upgrade_plan_definition_if_needed.c:66-76 | When the format is 40 at the start, the call reads it once and succeeds |
| Upgrade.OneTrace | ydbocto-aux/src/auto_upgrade_plan_definition_if_needed.c:56-106 | The answers determine the calls and the status |
| Upgrade.EachProcessFollows | ydbocto-aux/src/auto_upgrade_plan_definition_if_needed.c:56-106 | In every interleaving the calls of each process are those of the function |
| Upgrade.ReachableStatesAreSafe | ydbocto-aux/src/auto_upgrade_plan_definition_if_needed.c:56-106 | At most one process is between the locked check and the unlocking; it holds the lock; no discard is under way while the stored format is current; success is returned only with the stored format equal to the own one |
| Upgrade.NoDiscardOnceRecorded | ydbocto-aux/src/auto_upgrade_plan_definition_if_needed.c:88-99 | After the format is recorded no discard starts, runs or ends, and nothing is recorded again |
| Upgrade.RecordFollowsWholeDiscard | ydbocto-aux/src/auto_upgrade_plan_definition_if_needed.c:88-99 | The format is recorded only after a discard by the same process that ended well and that no other discard followed |
| Upgrade.StepHolds | ydbocto-aux/src/auto_upgrade_plan_definition_if_needed.c:56-106 | The invariant of the protocol survives every call of every process, failed calls and ended processes included |
| Upgrade.LockKeptExactlyWhenAlreadyCurrent | ydbocto-aux/src/auto_upgrade_plan_definition_if_needed.c:72-76 | A successful return leaves the lock held exactly when the format was already current when the lock was granted |
| Upgrade.LockCanBeKept | ydbocto-aux/src/auto_upgrade_plan_definition_if_needed.c:72-76 | A run of two processes that ends with both successful and the lock held |
| Upgrade.KeptLockShutsOut | ydbocto-aux/src/auto_upgrade_plan_definition_if_needed.c:77-80 | While the process that kept the lock lives, nobody who waits for it succeeds |
| Upgrade.LockGivenBackOnFailure | ydbocto-aux/src/auto_upgrade_plan_definition_if_needed.c:18-35 | A failed call does not keep the lock unless releasing it failed |
| ConstraintName.JoinColumns | ydbocto-aux/src/constraint_name_auto_generate.c:64-90 | The loop leaves the first 63 characters of the underscore join of the columns |
| ConstraintName.ConstraintNameAutoGenerate | ydbocto-aux/src/constraint_name_auto_generate.c:34-177 | The buffer holds, as a C string, the name described for the constraint, the names and the number |
| ConstraintName.CheckName | ydbocto-aux/src/constraint_name_auto_generate.c:44-112 | A CHECK name that fits is the table, "_", the column if there is one, "_check" and the number unless it is 0, and nothing else |
| ConstraintName.PrimaryKeyName | ydbocto-aux/src/constraint_name_auto_generate.c:49-112 | A PRIMARY KEY name that fits is the table, "_pkey" and the number unless it is 0, whatever the column |
| ConstraintName.UniqueName | ydbocto-aux/src/constraint_name_auto_generate.c:54-112 | A UNIQUE name that fits is the table, "_", the joined columns, "_key" and the number unless it is 0 |
| ConstraintName.JoinedAt | ydbocto-aux/src/constraint_name_auto_generate.c:72-90 | In the join each column stands at its place, behind the columns before it and one underscore for each |
| ConstraintName.SomeNames | ydbocto-aux/src/constraint_name_auto_generate.c:44-112 | "t_c_check2" and "t_pkey" |
| ConstraintName.SomeUniqueName | ydbocto-aux/src/constraint_name_auto_generate.c:54-112 | "t_a_b_key" |
| ConstraintName.Truncate | ydbocto-aux/src/constraint_name_auto_generate.c:120-169 | The truncated name is the one described, and the final assertion of the source holds exactly when the buffer has room for the reserved part |
| ConstraintName.Shares | ydbocto-aux/src/constraint_name_auto_generate.c:140-160 | Table and column names share the space so that each is whole or has its half, the table the larger half; with no space the precisions are the negative or zero ones of the source |
| ConstraintName.FairShareIsUnique | ydbocto-aux/src/constraint_name_auto_generate.c:143-160 | That condition leaves one pair of lengths |
| ConstraintName.NamesFit | ydbocto-aux/src/constraint_name_auto_generate.c:98-169 | A name fits its buffer, a shortened one fills it, and with room for it the whole tail is kept |
| ConstraintName.OneName | ydbocto-aux/src/constraint_name_auto_generate.c:98-169 | The description of a generated name fits one name |
| ConstraintName.NameTellsKindAndNumber | ydbocto-aux/src/constraint_name_auto_generate.c:102-169 | Names with whole tails that are equal have the same kind of constraint and the same number, whatever the tables, columns and buffers, truncated or not |
| ConstraintName.NamesApartExactlyWithRoom | ydbocto-aux/src/constraint_name_auto_generate.c:98-169 | For constraints of different kinds or numbers and any column parts, no table name gives both the same name exactly when the buffer has room for both tails; the same for two tables |
| ConstraintName.NamesClash | ydbocto-aux/src/constraint_name_auto_generate.c:120-169 | When one of them has no room, a table name is found that gives both the same name |
| ConstraintName.LookalikeTable | ydbocto-aux/src/constraint_name_auto_generate.c:127-168 | With room there is a table name that is its own generated name, for every column part |
| ConstraintName.RoomInBytes | ydbocto-aux/src/constraint_name_auto_generate.c:123-140 | The room needed is the tail and two bytes, or three with a column part |
| ConstraintName.IdentifiersHaveRoom | ydbocto-aux/src/octo.h:97-97 | A buffer for an identifier has room for every kind and every number of an `int` |

## Left out

- Sockets, bucket brigades, OpenSSL, logging, debug buffers, CGI variables, HTTP headers and `malloc` failure: input and output and foreign calls. Client blocks are a parameter, `recv` chooses any non-empty piece, writes to the client are appends that succeed.
- WsFraming.MgwsiWsDataFraming: a read of zero bytes ends the client stream, so the blocks are the non-empty reads; the calls it makes to the database and the client are recorded as events, and the sending of the CLOSE frame at its end is in the protocol model only.
- WsFraming.DataFraming.CaseExtensionData: the close after a failed `realloc`, like every failure to allocate.
- WsProtocol: threads call `mgwsi_ws_client_send_block` with arbitrary frames, which includes what the database reader sends; what the framing thread calls for is in `ws_session.dfy`. Termination of the reader thread from outside is not modelled.
- WsProtocol.WebSocket.ClientSendBlock: failed writes and flushes, after which the source returns 0, are not modelled; the written bytes arrive.
- WsProtocol.ClientSeesWholeFrames: payloads from 2 to the 31 bytes on, which the cast of the length to `int` would spoil, are outside the calls; nothing in the source sends that much.
- WsFraming.DataFraming.FinishFrame: a delivery is recorded whole; the cast of its length to `int` in the call to `mgwsi_ws_db_send` (line 3331) is the identity below 2 to the 31 bytes only. WebSocket messages have no total size limit in the code, and none is stated; only the 32 MiB of a frame.
- The arm of the extended-length case for frames without a mask is dead, since such frames are refused one case earlier; the model has an assertion there.
- Sizes.EncodeSize: sizes from 62 to the fifth power on, where the powers overflow, are outside its domain, as are sizes from 62 to the fourth power on for `mgwsi_encode_ws_header`.
- Sizes.DecodeSize: in base 62, texts whose powers or sum would overflow an `int`, which C leaves undefined, are outside its domain; a `long` has 64 bits.
- Terminator.ReceiveResponse: the eight-byte head that carries the terminator and the counted mode of `mgwsi_db_receive` are not modelled; terminators have no zero byte, because `strncmp` would stop there.
- Rings.CopyColumnListAliasList: the column alias found for a node is a function parameter, since `get_column_alias_for_column_list_alias` is not part of this model; the statements that wrap the copied pointers are left out.
- Gateway.EwdGateway.CacheyOutput: the HTTP response arrives parsed, output on an idle connection does not occur, and the path for pre-page responses, which calls `sendRequestToCachey` with other arguments, is left out.
- Upgrade.AutoUpgradePlanDefinitionIfNeeded: the stored format is the number that `atoi` reads; processes of other builds, which record other formats, are not in the runs; a process calls the function once, so counted re-locking does not arise.
- ConstraintName.JoinColumns: the ring of columns is a sequence, in list order; the traversal of rings is in `rings.dfy`.
- ConstraintName.ConstraintNameAutoGenerate: a negative number, which the comment on the parameter rules out, is outside its domain.
- `mgwsi_db_connect`, `mgwsi_parse_query_string`, the seed loader, the ODBC driver, the type-check tables, the Python wrappers and the scripts: either plumbing, or easy members beside those above.
