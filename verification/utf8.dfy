/** The incremental UTF-8 validator of m_apache and its relation to RFC 3629. */
module Utf8 {
  import opened Basics
  import opened WsBytes

  // State numbers double as row offsets into the table.
  const S0 := 0x000
  const T1 := 0x100
  const T2 := 0x200
  const S1 := 0x300
  const S2 := 0x400
  const T3 := 0x500
  const S3 := 0x600
  const S4 := 0x700
  const ER := 0x800

  const VALID := S0
  const INVALID := ER

  /** The table `validate_utf8`, by its runs of equal entries; it has exactly 2048 of them. */
  function ValidateUtf8(index: int): (state: int)
    requires 0 <= index < 2048
    ensures state == ER || IsState(state)
  {
    if index < 0x100 then
      if index <= 0x7F then S0
      else if index <= 0xC1 then ER
      else if index <= 0xDF then T1
      else if index == 0xE0 then S1
      else if index <= 0xEC then T2
      else if index == 0xED then S2
      else if index <= 0xEF then T2
      else if index == 0xF0 then S3
      else if index <= 0xF3 then T3
      else if index == 0xF4 then S4
      else ER
    else if index < 0x200 then if 0x180 <= index <= 0x1BF then S0 else ER
    else if index < 0x300 then if 0x280 <= index <= 0x2BF then T1 else ER
    else if index < 0x400 then if 0x3A0 <= index <= 0x3BF then T1 else ER
    else if index < 0x500 then if 0x480 <= index <= 0x49F then T1 else ER
    else if index < 0x600 then if 0x580 <= index <= 0x5BF then T2 else ER
    else if index < 0x700 then if 0x690 <= index <= 0x6BF then T2 else ER
    else if 0x780 <= index <= 0x78F then T2 else ER
  }

  /** The states from which the table may be indexed. */
  predicate IsState(state: int) {
    0 <= state < ER && state % 0x100 == 0
  }

  type State = s: int | 0 <= s < 0x800 && s % 0x100 == 0

  /** Runs the table over `bytes`, stopping at the first error as the unmasking loops do. */
  function Run(state: State, bytes: seq<byte>): (final: int)
    ensures final == ER || IsState(final)
    decreases bytes
  {
    if bytes == [] then state
    else
      var next := ValidateUtf8(state + bytes[0]);
      if next == ER then ER else Run(next, bytes[1..])
  }

  /** Validation composes over fragments. */
  lemma {:induction false} RunConcat(state: State, a: seq<byte>, b: seq<byte>)
    ensures Run(state, a + b) == if Run(state, a) == ER then ER else Run(Run(state, a), b)
    decreases a
  {
    if a == [] {
      assert a + b == b;
    } else {
      var next := ValidateUtf8(state + a[0]);
      assert (a + b)[1..] == a[1..] + b;
      if next != ER {
        RunConcat(next, a[1..], b);
      }
    }
  }

  lemma RunEmpty(state: State)
    ensures Run(state, []) == state
  {
  }

  /** One step of validation in the middle of `bytes`. */
  lemma RunOneMore(state: State, bytes: seq<byte>, i: nat)
    requires i < |bytes| && Run(state, bytes[..i]) != ER
    ensures Run(state, bytes[..i + 1]) == ValidateUtf8(Run(state, bytes[..i]) + bytes[i])
    ensures Run(state, bytes[..i + 1]) == ER ==> Run(state, bytes) == ER
  {
    assert bytes[..i + 1] == bytes[..i] + [bytes[i]];
    RunConcat(state, bytes[..i], [bytes[i]]);
    assert bytes == bytes[..i + 1] + bytes[i + 1..];
    RunConcat(state, bytes[..i + 1], bytes[i + 1..]);
  }

  // ---------------------------------------------------------------------------
  // RFC 3629
  // ---------------------------------------------------------------------------

  /** Unicode scalar values: code points up to U+10FFFF without the surrogates. */
  type Scalar = v: int | 0 <= v <= 0x10FFFF && !(0xD800 <= v <= 0xDFFF)

  /** RFC 3629, section 3: the octets of one character number. */
  function Encode(v: Scalar): (bytes: seq<byte>)
    ensures 1 <= |bytes| <= 4
  {
    if v <= 0x7F then [v]
    else if v <= 0x7FF then [0xC0 + v / 64, 0x80 + v % 64]
    else if v <= 0xFFFF then [0xE0 + v / 4096, 0x80 + v / 64 % 64, 0x80 + v % 64]
    else [0xF0 + v / 262144, 0x80 + v / 4096 % 64, 0x80 + v / 64 % 64, 0x80 + v % 64]
  }

  function EncodeAll(text: seq<Scalar>): seq<byte> {
    if text == [] then [] else Encode(text[0]) + EncodeAll(text[1..])
  }

  /** Well-formed UTF-8: the encoding of some sequence of scalar values. */
  ghost predicate WellFormed(bytes: seq<byte>) {
    exists text: seq<Scalar> :: EncodeAll(text) == bytes
  }

  /** A prefix of some well-formed byte sequence. */
  ghost predicate Extendable(bytes: seq<byte>) {
    exists rest: seq<byte> :: WellFormed(bytes + rest)
  }

  lemma RunStep(state: State, b: byte, rest: seq<byte>)
    ensures Run(state, [b] + rest)
         == var next := ValidateUtf8(state + b); if next == ER then ER else Run(next, rest)
  {
    assert ([b] + rest)[1..] == rest;
  }

  lemma RunTwo(state: State, b0: byte, b1: byte, rest: seq<byte>)
    ensures Run(state, [b0, b1] + rest)
         == var s1 := ValidateUtf8(state + b0); if s1 == ER then ER else
            var s2 := ValidateUtf8(s1 + b1); if s2 == ER then ER else Run(s2, rest)
  {
    assert [b0, b1] + rest == [b0] + ([b1] + rest);
    RunStep(state, b0, [b1] + rest);
    var s1 := ValidateUtf8(state + b0);
    if s1 != ER {
      RunStep(s1, b1, rest);
    }
  }

  /** One encoded character takes the table from S0 back to S0. */
  lemma RunEncoded(v: Scalar, rest: seq<byte>)
    ensures Run(S0, Encode(v) + rest) == Run(S0, rest)
  {
    var e := Encode(v);
    if v <= 0x7F {
      RunStep(S0, e[0], rest);
    } else if v <= 0x7FF {
      RunTwo(S0, e[0], e[1], rest);
    } else if v <= 0xFFFF {
      assert e + rest == [e[0], e[1]] + ([e[2]] + rest);
      LeadingPairOfThree(v);
      RunTwo(S0, e[0], e[1], [e[2]] + rest);
      RunStep(T1, e[2], rest);
    } else {
      assert e + rest == [e[0], e[1]] + ([e[2], e[3]] + rest);
      LeadingPairOfFour(v);
      RunTwo(S0, e[0], e[1], [e[2], e[3]] + rest);
      RunTwo(T2, e[2], e[3], rest);
    }
  }

  lemma LeadingPairOfThree(v: Scalar)
    requires 0x800 <= v <= 0xFFFF
    ensures ValidateUtf8(0xE0 + v / 4096) != ER
    ensures ValidateUtf8(ValidateUtf8(0xE0 + v / 4096) + 0x80 + v / 64 % 64) == T1
  {
    var hi, mid := v / 4096, v / 64 % 64;
    assert v / 64 == hi * 64 + mid;
    assert hi == 0 ==> mid >= 32;
    assert hi == 13 ==> mid < 32;
  }

  lemma LeadingPairOfFour(v: Scalar)
    requires 0x10000 <= v
    ensures ValidateUtf8(0xF0 + v / 262144) != ER
    ensures ValidateUtf8(ValidateUtf8(0xF0 + v / 262144) + 0x80 + v / 4096 % 64) == T2
  {
    var hi, mid := v / 262144, v / 4096 % 64;
    assert v / 4096 == hi * 64 + mid;
    assert hi == 0 ==> mid >= 16;
    assert hi == 4 ==> mid < 16;
  }

  lemma {:induction false} RunEncodedAll(text: seq<Scalar>)
    ensures Run(S0, EncodeAll(text)) == S0
  {
    if text != [] {
      RunEncoded(text[0], EncodeAll(text[1..]));
      RunEncodedAll(text[1..]);
    }
  }

  /** The first character of bytes that the table accepts. */
  lemma FirstCharacter(bytes: seq<byte>) returns (v: Scalar)
    requires bytes != [] && Run(S0, bytes) == S0
    ensures |Encode(v)| <= |bytes| && Encode(v) == bytes[..|Encode(v)|]
    ensures Run(S0, bytes[|Encode(v)|..]) == S0
  {
    PeelOne(S0, bytes);
    if bytes[0] <= 0x7F {
      v := bytes[0];
    } else {
      PeelOne(ValidateUtf8(bytes[0]), bytes[1..]);
      if bytes[0] <= 0xDF {
        v := Two(bytes[0], bytes[1]);
      } else if bytes[0] <= 0xEF {
        v := FirstOfThree(bytes);
      } else {
        v := FirstOfFour(bytes);
      }
    }
  }

  lemma FirstOfThree(bytes: seq<byte>) returns (v: Scalar)
    requires |bytes| > 1 && 0xE0 <= bytes[0] <= 0xEF
    requires ValidateUtf8(bytes[0]) != ER && ValidateUtf8(ValidateUtf8(bytes[0]) + bytes[1]) != ER
    requires Run(ValidateUtf8(ValidateUtf8(bytes[0]) + bytes[1]), bytes[2..]) == S0
    ensures 3 <= |bytes| && Encode(v) == bytes[..3] && Run(S0, bytes[3..]) == S0
  {
    PeelOne(T1, bytes[2..]);
    v := Three(bytes[0], bytes[1], bytes[2]);
    assert bytes[..3] == Encode(v);
  }

  lemma FirstOfFour(bytes: seq<byte>) returns (v: Scalar)
    requires |bytes| > 1 && 0xF0 <= bytes[0]
    requires ValidateUtf8(bytes[0]) != ER && ValidateUtf8(ValidateUtf8(bytes[0]) + bytes[1]) != ER
    requires Run(ValidateUtf8(ValidateUtf8(bytes[0]) + bytes[1]), bytes[2..]) == S0
    ensures 4 <= |bytes| && Encode(v) == bytes[..4] && Run(S0, bytes[4..]) == S0
  {
    PeelOne(T2, bytes[2..]);
    PeelOne(T1, bytes[3..]);
    v := Four(bytes[0], bytes[1], bytes[2], bytes[3]);
    assert bytes[..4] == Encode(v);
  }

  lemma PeelOne(state: State, bytes: seq<byte>)
    requires Run(state, bytes) == S0
    ensures bytes != [] || state == S0
    ensures bytes != [] ==>
      var next := ValidateUtf8(state + bytes[0]); next != ER && Run(next, bytes[1..]) == S0
  {
  }

  lemma Two(b0: byte, b1: byte) returns (v: Scalar)
    requires 0xC2 <= b0 <= 0xDF && 0x80 <= b1 <= 0xBF
    ensures Encode(v) == [b0, b1]
  {
    v := (b0 - 0xC0) * 64 + (b1 - 0x80);
  }

  /** The parts of a number given by groups of six bits. */
  lemma Groups(a: nat, b: nat, c: nat, d: nat)
    requires b < 64 && c < 64 && d < 64
    ensures var v := 262144 * a + 4096 * b + 64 * c + d;
            v / 262144 == a && v / 4096 % 64 == b && v / 64 % 64 == c && v % 64 == d
  {
    var v := 262144 * a + 4096 * b + 64 * c + d;
    DivideUnique(v, 262144, a, 4096 * b + 64 * c + d);
    SextetAt(v, 4096, a, b, 64 * c + d);
    SextetAt(v, 64, 64 * a + b, c, d);
    SextetAt(v, 1, 4096 * a + 64 * b + c, d, 0);
  }

  lemma Three(b0: byte, b1: byte, b2: byte) returns (v: Scalar)
    requires 0xE0 <= b0 <= 0xEF && 0x80 <= b1 <= 0xBF && 0x80 <= b2 <= 0xBF
    requires (b0 == 0xE0 ==> 0xA0 <= b1) && (b0 == 0xED ==> b1 <= 0x9F)
    ensures Encode(v) == [b0, b1, b2]
  {
    v := (b0 - 0xE0) * 4096 + (b1 - 0x80) * 64 + (b2 - 0x80);
    Groups(0, b0 - 0xE0, b1 - 0x80, b2 - 0x80);
    DivideUnique(v, 4096, b0 - 0xE0, (b1 - 0x80) * 64 + (b2 - 0x80));
  }

  lemma Four(b0: byte, b1: byte, b2: byte, b3: byte) returns (v: Scalar)
    requires 0xF0 <= b0 <= 0xF4 && 0x80 <= b1 <= 0xBF && 0x80 <= b2 <= 0xBF && 0x80 <= b3 <= 0xBF
    requires (b0 == 0xF0 ==> 0x90 <= b1) && (b0 == 0xF4 ==> b1 <= 0x8F)
    ensures Encode(v) == [b0, b1, b2, b3]
  {
    v := (b0 - 0xF0) * 262144 + (b1 - 0x80) * 4096 + (b2 - 0x80) * 64 + (b3 - 0x80);
    Groups(b0 - 0xF0, b1 - 0x80, b2 - 0x80, b3 - 0x80);
  }

  lemma {:induction false} AcceptedIsWellFormed(bytes: seq<byte>) returns (text: seq<Scalar>)
    requires Run(S0, bytes) == S0
    ensures EncodeAll(text) == bytes
    decreases |bytes|
  {
    if bytes == [] {
      text := [];
    } else {
      var v := FirstCharacter(bytes);
      var rest := AcceptedIsWellFormed(bytes[|Encode(v)|..]);
      text := [v] + rest;
      assert text[1..] == rest;
    }
  }

  /** The table ends in S0 exactly on the encodings of scalar value sequences. */
  lemma AcceptsExactlyWellFormed(bytes: seq<byte>)
    ensures Run(S0, bytes) == VALID <==> WellFormed(bytes)
  {
    if Run(S0, bytes) == S0 {
      var text := AcceptedIsWellFormed(bytes);
    }
    if WellFormed(bytes) {
      var text: seq<Scalar> :| EncodeAll(text) == bytes;
      RunEncodedAll(text);
    }
  }

  /** Bytes that bring the table back to S0 from a non-error state. */
  function Completion(state: State): seq<byte> {
    if state == S0 then []
    else if state == T1 then [0x80]
    else if state == T2 || state == S2 then [0x80, 0x80]
    else if state == S1 then [0xA0, 0x80]
    else if state == T3 || state == S4 then [0x80, 0x80, 0x80]
    else [0x90, 0x80, 0x80]
  }

  lemma CompletionCompletes(state: State)
    ensures Run(state, Completion(state)) == S0
  {
    var c := Completion(state);
    if |c| == 1 {
      RunStep(state, c[0], []);
    } else if |c| == 2 {
      RunTwo(state, c[0], c[1], []);
      assert c + [] == c;
    } else if |c| == 3 {
      assert c == [c[0], c[1]] + [c[2]];
      RunTwo(state, c[0], c[1], [c[2]]);
      RunStep(T1, c[2], []);
    }
  }

  /** The error state is reached as soon as no continuation can repair the bytes, and not before. */
  lemma FailsExactlyWhenHopeless(bytes: seq<byte>)
    ensures Run(S0, bytes) != INVALID <==> Extendable(bytes)
  {
    var final := Run(S0, bytes);
    if final != ER {
      var rest := Completion(final);
      CompletionCompletes(final);
      RunConcat(S0, bytes, rest);
      AcceptsExactlyWellFormed(bytes + rest);
    }
    if Extendable(bytes) {
      var rest :| WellFormed(bytes + rest);
      RunConcat(S0, bytes, rest);
      AcceptsExactlyWellFormed(bytes + rest);
    }
  }
}
