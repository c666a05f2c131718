/** Base64 with line breaks (RFC 4648, section 4). */
module Base64 {
  import opened Basics
  import opened WsBytes

  const PAD := 61      // '='
  const NEWLINE := 10

  // What the reverse map says of '=' and of characters outside the alphabet.
  const PADDING := 80
  const IGNORED := 100

  /** `mgwsi_b64_ntc`: the character for a six-bit number. */
  function Ntc(n: int): (c: byte)
    requires 0 <= n < 256
  {
    if n < 26 then 65 + n
    else if n < 52 then 97 - 26 + n
    else if n < 62 then 48 - 52 + n
    else if n == 62 then 43
    else 47
  }

  /** `mgwsi_b64_ctn`: the number for a character. */
  function Ctn(c: byte): (n: byte)
    ensures n < 64 || n == PADDING || n == IGNORED
  {
    if c == 47 then 63
    else if c == 43 then 62
    else if 65 <= c <= 90 then c - 65
    else if 97 <= c <= 122 then c - 97 + 26
    else if 48 <= c <= 57 then c - 48 + 52
    else if c == PAD then PADDING
    else IGNORED
  }

  lemma AlphabetRoundTrip(n: int)
    requires 0 <= n < 64
    ensures Ctn(Ntc(n)) == n
  {
  }

  /** RFC 4648, table 1: the letters, upper case before lower case, then the digits, '+' and '/'. */
  lemma AlphabetInOrder(c: char)
    ensures 'A' <= c <= 'Z' ==> var n := c as int - 'A' as int; Ntc(n) == c as int && Ctn(c as int) == n
    ensures 'a' <= c <= 'z' ==> var n := 26 + (c as int - 'a' as int); Ntc(n) == c as int && Ctn(c as int) == n
    ensures '0' <= c <= '9' ==> var n := 52 + (c as int - '0' as int); Ntc(n) == c as int && Ctn(c as int) == n
    ensures Ntc(62) == '+' as int && Ctn('+' as int) == 62 && Ntc(63) == '/' as int && Ctn('/' as int) == 63
  {
  }

  predicate InAlphabet(c: byte) {
    || 'A' as int <= c <= 'Z' as int || 'a' as int <= c <= 'z' as int || '0' as int <= c <= '9' as int
    || c == '+' as int || c == '/' as int
  }

  /** Every other character is skipped, except '='. */
  lemma AlphabetIsAll(c: byte)
    ensures Ctn(c) < 64 <==> InAlphabet(c)
    ensures Ctn(c) == PADDING <==> c == '=' as int
    ensures Ctn(c) == IGNORED <==> !InAlphabet(c) && c != '=' as int
  {
  }

  /** The four six-bit numbers of a 24-bit group. */
  function Sextet(a: byte, b: byte, c: byte, index: nat): (n: nat)
    requires index < 4
    ensures n < 64
  {
    var group := a * 65536 + b * 256 + c;
    if index == 0 then group / 262144
    else if index == 1 then group / 4096 % 64
    else if index == 2 then group / 64 % 64
    else group % 64
  }

  /** The four characters for the first group of `data`, padded if it has one byte or two. */
  function Quad(data: seq<byte>): (quad: seq<byte>)
    requires data != []
    ensures |quad| == 4
  {
    var a := data[0];
    var b := if |data| > 1 then data[1] else 0;
    var c := if |data| > 2 then data[2] else 0;
    [Ntc(Sextet(a, b, c, 0)), Ntc(Sextet(a, b, c, 1)),
     if |data| > 1 then Ntc(Sextet(a, b, c, 2)) else PAD, if |data| > 2 then Ntc(Sextet(a, b, c, 3)) else PAD]
  }

  /** The encoding of `data`, with a newline after every `quads` full groups, `done` of which precede it. */
  function Encode(data: seq<byte>, quads: nat, done: nat): seq<byte> {
    if data == [] then []
    else if |data| < 3 then Quad(data)
    else if done + 1 == quads then Quad(data) + [NEWLINE] + Encode(data[3..], quads, 0)
    else Quad(data) + Encode(data[3..], quads, done + 1)
  }

  /** A group by the bits of its bytes: 6 and 2, 4 and 4, 2 and 6. */
  lemma GroupBits(a1: nat, a0: nat, b1: nat, b0: nat, c1: nat, c0: nat)
    requires a1 < 64 && a0 < 4 && b1 < 16 && b0 < 16 && c1 < 4 && c0 < 64
    ensures var a, b, c := 4 * a1 + a0, 16 * b1 + b0, 64 * c1 + c0;
            && Sextet(a, b, c, 0) == a1 && Sextet(a, b, c, 1) == a0 * 16 + b1
            && Sextet(a, b, c, 2) == b0 * 4 + c1 && Sextet(a, b, c, 3) == c0
  {
    var m1, m2 := 16 * a0 + b1, 4 * b0 + c1;
    var group := 262144 * a1 + 4096 * m1 + 64 * m2 + c0;
    DivideUnique(group, 262144, a1, 4096 * m1 + 64 * m2 + c0);
    SextetAt(group, 4096, a1, m1, 64 * m2 + c0);
    SextetAt(group, 64, 64 * a1 + m1, m2, c0);
    SextetAt(group, 1, 4096 * a1 + 64 * m1 + m2, c0, 0);
  }

  /** The shifts of the source, on single bytes, give the numbers of the group. */
  lemma ShiftsAreSextets(a: byte, b: byte, c: byte)
    ensures a / 4 == Sextet(a, b, c, 0)
    ensures a * 64 % 256 / 4 + b / 16 == Sextet(a, b, c, 1)
    ensures b * 16 % 256 / 4 + c / 64 == Sextet(a, b, c, 2)
    ensures c * 4 % 256 / 4 == Sextet(a, b, c, 3)
  {
    hide Sextet;
    GroupBits(a / 4, a % 4, b / 16, b % 16, c / 64, c % 64);
    ShiftWraps(a, 64, 4);
    ShiftWraps(b, 16, 16);
    ShiftWraps(c, 4, 64);
  }

  /** A byte multiplied by d keeps what is below the top: d times k is 256. */
  lemma ShiftWraps(x: byte, d: nat, k: nat)
    requires (d, k) == (64, 4) || (d, k) == (16, 16) || (d, k) == (4, 64)
    ensures x * d % 256 == x % k * d
  {
    var q, r := x / k, x % k;
    assert x * d == 256 * q + d * r;
  }

  // ---------------------------------------------------------------------------
  // Sizes
  // ---------------------------------------------------------------------------

  /** `mgwsi_b64_enc_buffer_size`. */
  function EncBufferSize(l: nat, q: nat): nat {
    var ret := l / 3 * 4 + if l % 3 != 0 then 4 else 0;
    if q != 0 then ret + Quotient(ret, q * 4) else ret
  }

  function Quotient(n: nat, d: nat): nat
    requires d > 0
  {
    n / d
  }

  /** The number of newlines in an encoding. */
  function Newlines(groups: nat, quads: nat, done: nat): nat
    decreases groups
  {
    if groups == 0 then 0
    else if done + 1 == quads then 1 + Newlines(groups - 1, quads, 0)
    else Newlines(groups - 1, quads, done + 1)
  }

  lemma Thirds(n: nat)
    ensures n >= 3 ==> (n + 2) / 3 == (n - 3 + 2) / 3 + 1 && n / 3 == (n - 3) / 3 + 1
    ensures n == 0 ==> (n + 2) / 3 == 0
    ensures 0 < n < 3 ==> (n + 2) / 3 == 1 && n / 3 == 0
  {
  }

  lemma {:induction false} EncodedLength(data: seq<byte>, quads: nat, done: nat)
    ensures |Encode(data, quads, done)| == (|data| + 2) / 3 * 4 + Newlines(|data| / 3, quads, done)
    decreases |data|
  {
    Thirds(|data|);
    if |data| >= 3 {
      EncodedLength(data[3..], quads, if done + 1 == quads then 0 else done + 1);
    }
  }

  lemma {:induction false} NewlinesCount(groups: nat, quads: nat, done: nat)
    requires quads > 0 ==> done < quads
    ensures quads == 0 ==> Newlines(groups, quads, done) == 0
    ensures quads > 0 ==> Newlines(groups, quads, done) == (groups + done) / quads
    decreases groups
  {
    if groups > 0 {
      if done + 1 == quads {
        NewlinesCount(groups - 1, quads, 0);
        OneMore(groups - 1, quads);
      } else {
        NewlinesCount(groups - 1, quads, done + 1);
      }
    } else if quads > 0 {
      BelowOne(done, quads);
    }
  }

  lemma OneMore(n: nat, q: nat)
    requires q > 0
    ensures (n + q) / q == n / q + 1
  {
    DivideUnique(n + q, q, n / q + 1, n % q);
  }

  lemma BelowOne(n: nat, q: nat)
    requires n < q
    ensures n / q == 0
  {
    DivideUnique(n, q, 0, n);
  }

  lemma NextQuotient(n: nat, d: nat)
    requires d > 0
    ensures (n + 1) / d == n / d + if (n + 1) % d == 0 then 1 else 0
  {
    var q, r := n / d, n % d;
    if r + 1 == d {
      DivideUnique(n + 1, d, q + 1, 0);
    } else {
      DivideUnique(n + 1, d, q, r + 1);
    }
  }

  /** The encoding fits the computed buffer size, and fills it but for one byte: the line break that is counted for a
      padded last group and is not written. */
  lemma EncodingFits(data: seq<byte>, quads: nat)
    ensures |Encode(data, quads, 0)| <= EncBufferSize(|data|, quads)
    ensures quads == 0 ==> |Encode(data, quads, 0)| == EncBufferSize(|data|, quads)
    ensures quads > 0 ==>
              EncBufferSize(|data|, quads) - |Encode(data, quads, 0)|
              == if |data| % 3 != 0 && (|data| + 2) / 3 % quads == 0 then 1 else 0
  {
    EncodedLength(data, quads, 0);
    NewlinesCount(|data| / 3, quads, 0);
    var all := (|data| + 2) / 3;
    assert all * 4 == |data| / 3 * 4 + if |data| % 3 != 0 then 4 else 0;
    if quads > 0 {
      FourTimes(all, quads);
      NextQuotient(|data| / 3, quads);
    }
  }

  lemma FourTimes(n: nat, d: nat)
    requires d > 0
    ensures Quotient(n * 4, d * 4) == n / d
  {
    var q, r := n / d, n % d;
    assert n == d * q + r;
    assert d * q * 4 == d * 4 * q;
    DivideUnique(n * 4, d * 4, q, r * 4);
  }

  // ---------------------------------------------------------------------------
  // Decoding
  // ---------------------------------------------------------------------------

  datatype Decoded = Failed | Data(bytes: seq<byte>)

  /** The value of the next character that is not ignored, and what follows it. */
  function Next(s: seq<byte>): (r: (byte, seq<byte>))
    ensures |r.1| <= |s| && (s != [] ==> |r.1| < |s|) && (r.0 != IGNORED ==> |r.1| < |s|)
    ensures r.0 == IGNORED ==> r.1 == []
  {
    if s == [] then (IGNORED, [])
    else if Ctn(s[0]) == IGNORED then Next(s[1..])
    else (Ctn(s[0]), s[1..])
  }

  lemma GroupFits(c: byte, d: byte, e: byte, f: byte)
    ensures d < 64 ==> c * 4 % 256 + d / 16 < 256
    ensures e < 64 ==> d * 16 % 256 + e / 4 < 256
    ensures f < 64 ==> e * 64 % 256 + f < 256
  {
    ShiftWraps(c, 4, 64);
    ShiftWraps(d, 16, 16);
    ShiftWraps(e, 64, 4);
  }

  /** The bytes of one group of four values; arithmetic on single bytes wraps. */
  function Group(c: byte, d: byte, e: byte, f: byte): (bytes: seq<byte>)
    ensures |bytes| <= 3
  {
    GroupFits(c, d, e, f);
    if c >= 64 || d >= 64 then []
    else if e >= 64 then [c * 4 % 256 + d / 16]
    else if f >= 64 then [c * 4 % 256 + d / 16, d * 16 % 256 + e / 4]
    else [c * 4 % 256 + d / 16, d * 16 % 256 + e / 4, e * 64 % 256 + f]
  }

  /** The bytes of a group are the leading bits of its sextets. */
  lemma GroupIsNumber(c: byte, d: byte, e: byte, f: byte)
    ensures var bytes := Group(c, d, e, f);
            && |bytes| == (if c >= 64 || d >= 64 then 0 else if e >= 64 then 1 else if f >= 64 then 2 else 3)
            && (|bytes| == 1 ==> bytes[0] == (c * 64 + d) / 16)
            && (|bytes| == 2 ==> (bytes[0] as int) * 256 + bytes[1] == (c * 4096 + d * 64 + e) / 4)
            && (|bytes| == 3 ==>
                  (bytes[0] as int) * 65536 + (bytes[1] as int) * 256 + bytes[2] == c * 262144 + d * 4096 + e * 64 + f)
  {
    ShiftWraps(c, 4, 64);
    ShiftWraps(d, 16, 16);
    ShiftWraps(e, 64, 4);
  }

  /** `mgwsi_b64_decode` on the characters that are left. */
  function Decode(s: seq<byte>): Decoded
    decreases |s|, 1
  {
    if |s| <= 3 then Data([]) else DecodeGroup(Next(s).0, Next(s).1)
  }

  /** The rest of a group whose first value is c. */
  function DecodeGroup(c: byte, s1: seq<byte>): Decoded
    decreases |s1|, 0
  {
    var (d, s2) := Next(s1);
    var (e, s3) := Next(s2);
    var (f, s4) := Next(s3);
    if f == IGNORED then Failed
    else if f == PADDING then Data(Group(c, d, e, f))
    else
      var rest := Decode(s4);
      if rest.Failed? then Failed else Data(Group(c, d, e, f) + rest.bytes)
  }

  lemma NextSymbol(c: byte, s: seq<byte>)
    requires Ctn(c) != IGNORED
    ensures Next([c] + s) == (Ctn(c), s)
  {
    assert ([c] + s)[1..] == s;
  }

  lemma QuadDecodes(c0: byte, c1: byte, c2: byte, c3: byte, s: seq<byte>)
    requires Ctn(c0) != IGNORED && Ctn(c1) != IGNORED && Ctn(c2) != IGNORED && Ctn(c3) != IGNORED
    ensures Decode([c0, c1, c2, c3] + s)
         == var group := Group(Ctn(c0), Ctn(c1), Ctn(c2), Ctn(c3));
            if Ctn(c3) == PADDING then Data(group)
            else if Decode(s).Failed? then Failed else Data(group + Decode(s).bytes)
  {
    hide Ctn, Group;
    assert [c0, c1, c2, c3] + s == [c0] + ([c1] + ([c2] + ([c3] + s)));
    NextSymbol(c0, [c1] + ([c2] + ([c3] + s)));
    NextSymbol(c1, [c2] + ([c3] + s));
    NextSymbol(c2, [c3] + s);
    NextSymbol(c3, s);
  }

  lemma SkipIgnored(c: byte, s: seq<byte>)
    requires Ctn(c) == IGNORED
    ensures Next([c] + s) == Next(s)
  {
    assert ([c] + s)[1..] == s;
  }

  /** A newline in front of an encoded group, or at the very end, is skipped. */
  lemma NewlineSkipped(s: seq<byte>)
    requires s == [] || |s| >= 4
    ensures Decode([NEWLINE] + s) == Decode(s)
  {
    hide DecodeGroup, Next;
    SkipIgnored(NEWLINE, s);
  }

  /** Decoding a group of sextets gives its bytes back. */
  lemma GroupRoundTrip(a: byte, b: byte, c: byte)
    ensures var s0, s1, s2, s3 := Sextet(a, b, c, 0), Sextet(a, b, c, 1), Sextet(a, b, c, 2), Sextet(a, b, c, 3);
            && s0 * 4 % 256 + s1 / 16 == a && s1 * 16 % 256 + s2 / 4 == b && s2 * 64 % 256 + s3 == c
  {
    hide Sextet;
    GroupBits(a / 4, a % 4, b / 16, b % 16, c / 64, c % 64);
    BitsJoin(0, a / 4, a % 4, b / 16, 4, 64, 16);
    BitsJoin(a % 4, b / 16, b % 16, c / 64, 16, 16, 4);
    BitsJoin(b % 16, c / 64, c % 64, 0, 64, 4, 1);
  }

  /** Two neighbouring sextets, each in two parts: the low part of the first and the high part of the second make up a
      byte. */
  lemma BitsJoin(x: nat, high: nat, low: nat, y: nat, d: nat, k: nat, e: nat)
    requires (d, k, e) == (4, 64, 16) || (d, k, e) == (16, 16, 4) || (d, k, e) == (64, 4, 1)
    requires high < k && low < d && y < e && k * x + high < 256
    ensures (k * x + high) * d % 256 + (e * low + y) / e == d * high + low
  {
    ShiftWraps(k * x + high, d, k);
    DivideUnique(k * x + high, k, x, high);
    DivideUnique(e * low + y, e, low, y);
  }

  lemma SextetsDecode(a: byte, b: byte, c: byte)
    ensures Ctn(Ntc(Sextet(a, b, c, 0))) == Sextet(a, b, c, 0) && Ctn(Ntc(Sextet(a, b, c, 1))) == Sextet(a, b, c, 1)
    ensures Ctn(Ntc(Sextet(a, b, c, 2))) == Sextet(a, b, c, 2) && Ctn(Ntc(Sextet(a, b, c, 3))) == Sextet(a, b, c, 3)
    ensures Group(Sextet(a, b, c, 0), Sextet(a, b, c, 1), Sextet(a, b, c, 2), Sextet(a, b, c, 3)) == [a, b, c]
    ensures Group(Sextet(a, b, 0, 0), Sextet(a, b, 0, 1), Sextet(a, b, 0, 2), PADDING) == [a, b]
    ensures Group(Sextet(a, 0, 0, 0), Sextet(a, 0, 0, 1), PADDING, PADDING) == [a]
  {
    AlphabetRoundTrip(Sextet(a, b, c, 0));
    AlphabetRoundTrip(Sextet(a, b, c, 1));
    AlphabetRoundTrip(Sextet(a, b, c, 2));
    AlphabetRoundTrip(Sextet(a, b, c, 3));
    hide Ntc, Ctn, Sextet;
    GroupRoundTrip(a, b, c);
    GroupRoundTrip(a, b, 0);
    GroupRoundTrip(a, 0, 0);
  }

  /** One encoded group decodes to its bytes. */
  lemma QuadRoundTrip(data: seq<byte>)
    requires data != []
    ensures var q := Quad(data);
            && Ctn(q[0]) != IGNORED && Ctn(q[1]) != IGNORED && Ctn(q[2]) != IGNORED && Ctn(q[3]) != IGNORED
            && (Ctn(q[3]) == PADDING <==> |data| < 3)
            && Group(Ctn(q[0]), Ctn(q[1]), Ctn(q[2]), Ctn(q[3])) == if |data| < 3 then data else data[..3]
  {
    hide Sextet, Ntc, Group;
    var a := data[0];
    var b := if |data| > 1 then data[1] else 0;
    var c := if |data| > 2 then data[2] else 0;
    SextetsDecode(a, b, c);
    assert data == if |data| == 1 then [a] else if |data| == 2 then [a, b] else [a, b, c] + data[3..];
  }

  /** Decoding undoes encoding for all data and all line lengths. */
  lemma {:induction false} DecodeUndoesEncode(data: seq<byte>, quads: nat, done: nat)
    ensures Decode(Encode(data, quads, done)) == Data(data)
    ensures data != [] ==> |Encode(data, quads, done)| >= 4
    decreases |data|
  {
    hide Quad, Ctn, Group, Decode, DecodeGroup;
    DecodeEmpty();
    if data != [] {
      QuadRoundTrip(data);
      var q := Quad(data);
      if |data| < 3 {
        assert q == [q[0], q[1], q[2], q[3]] + [];
        QuadDecodes(q[0], q[1], q[2], q[3], []);
      } else {
        var next := if done + 1 == quads then 0 else done + 1;
        var rest := Encode(data[3..], quads, next);
        DecodeUndoesEncode(data[3..], quads, next);
        NewlineSkipped(rest);
        var tail := if done + 1 == quads then [NEWLINE] + rest else rest;
        assert Encode(data, quads, done) == [q[0], q[1], q[2], q[3]] + tail;
        QuadDecodes(q[0], q[1], q[2], q[3], tail);
        assert data[..3] + data[3..] == data;
      }
    }
  }

  lemma DecodeEmpty()
    ensures Decode([]) == Data([])
  {
  }

  // ---------------------------------------------------------------------------
  // When decoding fails
  // ---------------------------------------------------------------------------

  /** Four symbols and what follows them. */
  function Four(s: seq<byte>): (byte, byte, byte, byte, seq<byte>) {
    var (c, s1) := Next(s);
    var (d, s2) := Next(s1);
    var (e, s3) := Next(s2);
    var (f, s4) := Next(s3);
    (c, d, e, f, s4)
  }

  lemma DecodeStep(s: seq<byte>)
    ensures |s| <= 3 ==> Decode(s) == Data([])
    ensures |s| > 3 ==>
              var (c, d, e, f, rest) := Four(s);
              Decode(s) == if f == IGNORED then Failed
                           else if f == PADDING then Data(Group(c, d, e, f))
                           else if Decode(rest).Failed? then Failed else Data(Group(c, d, e, f) + Decode(rest).bytes)
  {
  }

  /** `decoded` is what the first i characters decode to. */
  ghost predicate Decoding(from: seq<byte>, i: nat, decoded: seq<byte>)
    requires i <= |from|
  {
    Decode(from) == if Decode(from[i..]).Failed? then Failed else Data(decoded + Decode(from[i..]).bytes)
  }

  lemma DecodingStarts(from: seq<byte>)
    ensures Decoding(from, 0, [])
  {
    hide Decode;
    assert from[0..] == from;
  }

  lemma DecodingGoesOn(from: seq<byte>, i: nat, decoded: seq<byte>, c: byte, d: byte, e: byte, f: byte, i4: nat)
    requires i + 3 < |from| && i4 <= |from| && Four(from[i..]) == (c, d, e, f, from[i4..])
    requires Decoding(from, i, decoded)
    ensures f == IGNORED ==> Decode(from) == Failed
    ensures f == PADDING ==> Decode(from) == Data(decoded + Group(c, d, e, f))
    ensures f != IGNORED && f != PADDING ==> Decoding(from, i4, decoded + Group(c, d, e, f))
  {
    hide Decode, Four, Group;
    DecodeStep(from[i..]);
    if Decode(from[i4..]).Data? {
      Assoc(decoded, Group(c, d, e, f), Decode(from[i4..]).bytes);
    }
  }

  lemma DecodingEnds(from: seq<byte>, i: nat, decoded: seq<byte>)
    requires i <= |from| <= i + 3 && Decoding(from, i, decoded)
    ensures Decode(from) == Data(decoded)
  {
    hide Decode;
    DecodeStep(from[i..]);
    assert decoded + [] == decoded;
  }

  /** The values of the characters that are not skipped. */
  function Symbols(s: seq<byte>): (symbols: seq<byte>)
    ensures |symbols| <= |s| && IGNORED !in symbols
  {
    if s == [] then [] else (if Ctn(s[0]) == IGNORED then [] else [Ctn(s[0])]) + Symbols(s[1..])
  }

  /** What follows the n-th symbol. */
  function After(s: seq<byte>, n: nat): seq<byte>
    requires n <= |Symbols(s)|
  {
    if n == 0 then s else After(s[1..], if Ctn(s[0]) == IGNORED then n else n - 1)
  }

  lemma {:induction false} NextIsSymbol(s: seq<byte>, n: nat)
    requires n < |Symbols(s)|
    ensures var (c, rest) := Next(s);
            c == Symbols(s)[0] && Symbols(rest) == Symbols(s)[1..] && After(s, n + 1) == After(rest, n)
  {
    if Ctn(s[0]) == IGNORED {
      NextIsSymbol(s[1..], n);
    }
  }

  lemma {:induction false} NoMoreSymbols(s: seq<byte>)
    requires Symbols(s) == []
    ensures Next(s) == (IGNORED, [])
  {
    if s != [] {
      NoMoreSymbols(s[1..]);
    }
  }

  /** Reading four symbols fails exactly when there are fewer, and otherwise gives the first four. */
  lemma FourOfSymbols(s: seq<byte>, n: nat)
    requires n + 4 <= |Symbols(s)|
    ensures var v, (c, d, e, f, rest) := Symbols(s), Four(s);
            && c == v[0] && d == v[1] && e == v[2] && f == v[3] && f != IGNORED
            && Symbols(rest) == v[4..] && After(s, n + 4) == After(rest, n)
  {
    hide Next, After, Symbols;
    var s1 := Next(s).1;
    NextIsSymbol(s, n + 3);
    var s2 := Next(s1).1;
    NextIsSymbol(s1, n + 2);
    var s3 := Next(s2).1;
    NextIsSymbol(s2, n + 1);
    NextIsSymbol(s3, n);
    var v := Symbols(s);
    assert v[3] in v;
  }

  lemma FewerThanFour(s: seq<byte>)
    requires |Symbols(s)| < 4
    ensures Four(s).3 == IGNORED
  {
    hide Next;
    assert Symbols([]) == [];
    NoMoreSymbols([]);
    NextOrNone(s);
    NextOrNone(Next(s).1);
    NextOrNone(Next(Next(s).1).1);
    NextOrNone(Next(Next(Next(s).1).1).1);
  }

  lemma NextOrNone(s: seq<byte>)
    ensures if Symbols(s) == [] then Next(s) == (IGNORED, []) else |Symbols(Next(s).1)| == |Symbols(s)| - 1
  {
    if Symbols(s) == [] {
      NoMoreSymbols(s);
    } else {
      NextIsSymbol(s, 0);
    }
  }

  /** Some group of four symbols ends with '='. */
  ghost predicate GroupEndsPadded(symbols: seq<byte>) {
    exists i :: 0 <= i < |symbols| && i % 4 == 3 && symbols[i] == PADDING
  }

  /** The symbols of the whole groups among n. */
  function Whole(n: nat): (w: nat)
    ensures w <= n < w + 4 && w % 4 == 0
  {
    n / 4 * 4
  }

  lemma PaddedLater(symbols: seq<byte>)
    requires |symbols| >= 4 && symbols[3] != PADDING
    ensures GroupEndsPadded(symbols) <==> GroupEndsPadded(symbols[4..])
  {
    var later := symbols[4..];
    if GroupEndsPadded(later) {
      var i :| 0 <= i < |later| && i % 4 == 3 && later[i] == PADDING;
      assert symbols[i + 4] == PADDING;
    }
    if GroupEndsPadded(symbols) {
      var i :| 0 <= i < |symbols| && i % 4 == 3 && symbols[i] == PADDING;
      assert later[i - 4] == PADDING;
    }
  }

  /** Decoding fails exactly when no group of four symbols ends with '=' and more than three characters, skipped ones
      included, follow the last whole group. */
  lemma {:induction false} DecodeFailsExactly(s: seq<byte>)
    ensures Decode(s).Failed? <==>
            !GroupEndsPadded(Symbols(s)) && |After(s, Whole(|Symbols(s)|))| > 3
    decreases |s|
  {
    hide Four, Next, Group, Decode, Symbols, After, Whole;
    var v := Symbols(s);
    DecodeStep(s);
    if |v| < 4 {
      AfterNone(s);
      FewerThanFour(s);
    } else {
      FourOfSymbols(s, Whole(|v|) - 4);
      var rest := Four(s).4;
      FourShortens(s);
      if v[3] == PADDING {
        assert GroupEndsPadded(v);
      } else {
        PaddedLater(v);
        WholeLater(|v|);
        DecodeFailsExactly(rest);
      }
    }
  }

  lemma AfterNone(s: seq<byte>)
    ensures After(s, 0) == s && forall n: nat :: n < 4 ==> Whole(n) == 0
  {
  }

  lemma WholeLater(n: nat)
    requires n >= 4
    ensures Whole(n) == Whole(n - 4) + 4
  {
  }

  lemma FourShortens(s: seq<byte>)
    ensures s != [] ==> |Four(s).4| < |s|
  {
  }

  lemma OneSymbol(c: byte)
    requires Ctn(c) != IGNORED
    ensures Symbols([c]) == [Ctn(c)]
  {
    assert Symbols([]) == [];
  }

  /** Input that ends inside a group is not refused as such: two characters are dropped in silence. */
  lemma EndInsideGroup()
    ensures Decode([81, 81]) == Data([]) && |Symbols([81, 81])| % 4 == 2
  {
    OneSymbol(81);
    SymbolsConcat([81], [81]);
    assert [81] + [81] == [81, 81];
    DecodeStep([81, 81]);
  }

  /** And input that ends between groups can be refused: a whole group and four line breaks. */
  lemma EndBetweenGroups()
    ensures var s := [81, 85, 74, 68] + [NEWLINE, NEWLINE, NEWLINE, NEWLINE];
            Decode(s) == Failed && |Symbols(s)| % 4 == 0
  {
    hide Decode, Group;
    OnlySkipped([NEWLINE, NEWLINE, NEWLINE, NEWLINE]);
    QuadDecodes(81, 85, 74, 68, [NEWLINE, NEWLINE, NEWLINE, NEWLINE]);
    GroupOfSymbols(81, 85, 74, 68, [NEWLINE, NEWLINE, NEWLINE, NEWLINE]);
  }

  lemma GroupOfSymbols(c0: byte, c1: byte, c2: byte, c3: byte, s: seq<byte>)
    requires Ctn(c0) != IGNORED && Ctn(c1) != IGNORED && Ctn(c2) != IGNORED && Ctn(c3) != IGNORED
    ensures |Symbols([c0, c1, c2, c3] + s)| == 4 + |Symbols(s)|
  {
    hide Ctn, Symbols;
    OneSymbol(c0);
    OneSymbol(c1);
    OneSymbol(c2);
    OneSymbol(c3);
    SymbolsConcat([c2], [c3]);
    SymbolsConcat([c1], [c2] + [c3]);
    SymbolsConcat([c0], [c1] + ([c2] + [c3]));
    SymbolsConcat([c0, c1, c2, c3], s);
    assert [c0] + ([c1] + ([c2] + [c3])) == [c0, c1, c2, c3];
  }

  lemma {:induction false} SymbolsConcat(a: seq<byte>, b: seq<byte>)
    ensures Symbols(a + b) == Symbols(a) + Symbols(b)
    decreases |a|
  {
    hide Ctn;
    if a == [] {
      assert a + b == b;
    } else {
      assert (a + b)[1..] == a[1..] + b;
      SymbolsConcat(a[1..], b);
      Assoc(if Ctn(a[0]) == IGNORED then [] else [Ctn(a[0])], Symbols(a[1..]), Symbols(b));
    }
  }

  lemma {:induction false} NoSymbolsIn(s: seq<byte>)
    requires forall c <- s :: Ctn(c) == IGNORED
    ensures Symbols(s) == []
  {
    if s != [] {
      NoSymbolsIn(s[1..]);
    }
  }

  lemma OnlySkipped(s: seq<byte>)
    requires forall c <- s :: Ctn(c) == IGNORED
    ensures Symbols(s) == [] && Decode(s) == if |s| > 3 then Failed else Data([])
  {
    NoSymbolsIn(s);
    FewerThanFour(s);
    DecodeStep(s);
  }

  /** Characters outside the alphabet behind an encoding do no harm exactly if they are at most three or the encoding
      is padded. */
  lemma {:induction false} TailAfterEncoding(data: seq<byte>, done: nat, tail: seq<byte>)
    requires forall c <- tail :: Ctn(c) == IGNORED
    ensures Decode(Encode(data, 0, done) + tail) == if |data| % 3 == 0 && |tail| > 3 then Failed else Data(data)
    decreases |data|
  {
    hide Quad, Ctn, Group, Decode, Encode;
    EncodeStep(data, 0, done);
    if data == [] {
      assert Encode(data, 0, done) + tail == tail;
      OnlySkipped(tail);
    } else {
      QuadRoundTrip(data);
      var q := Quad(data);
      assert q == [q[0], q[1], q[2], q[3]];
      if |data| < 3 {
        QuadDecodes(q[0], q[1], q[2], q[3], tail);
      } else {
        var rest := Encode(data[3..], 0, done + 1);
        TailAfterEncoding(data[3..], done + 1, tail);
        Assoc(q, rest, tail);
        QuadDecodes(q[0], q[1], q[2], q[3], rest + tail);
        assert data[..3] + data[3..] == data;
      }
    }
  }

  // ---------------------------------------------------------------------------
  // The loops of the source
  // ---------------------------------------------------------------------------

  /** One pass of the encoding loop, without the line break: four characters for up to three bytes. */
  method EncodeGroup(from: seq<byte>, start: nat, to: array<byte>, at: nat) returns (i: nat, pos: nat)
    requires start < |from| && at + 4 <= to.Length
    modifies to
    ensures i == if start + 3 <= |from| then start + 3 else |from|
    ensures pos == at + 4 && to[at..pos] == Quad(from[start..])
    ensures forall k :: 0 <= k < to.Length && !(at <= k < pos) ==> to[k] == old(to[k])
  {
    hide Sextet, Ntc;
    i, pos := start, at;
    var c: int, d: int := from[i], 0;
    ShiftsAreSextets(from[i], if i + 1 < |from| then from[i + 1] else 0, if i + 2 < |from| then from[i + 2] else 0);
    to[pos] := Ntc(c / 4);
    pos := pos + 1;
    c := c * 64 % 256;
    i := i + 1;
    if i >= |from| {
      to[pos], to[pos + 1], to[pos + 2] := Ntc(c / 4), PAD, PAD;
      pos := pos + 3;
      return;
    }
    d := from[i];
    to[pos] := Ntc(c / 4 + d / 16);
    pos := pos + 1;
    d := d * 16 % 256;
    i := i + 1;
    if i >= |from| {
      to[pos], to[pos + 1] := Ntc(d / 4), PAD;
      pos := pos + 2;
      return;
    }
    c := from[i];
    to[pos] := Ntc(d / 4 + c / 64);
    pos := pos + 1;
    c := c * 4 % 256;
    i := i + 1;
    to[pos] := Ntc(c / 4);
    pos := pos + 1;
  }

  lemma EncodeStep(data: seq<byte>, quads: nat, done: nat)
    ensures data == [] ==> Encode(data, quads, done) == []
    ensures 0 < |data| < 3 ==> Encode(data, quads, done) == Quad(data)
    ensures |data| >= 3 && done + 1 == quads ==>
              Encode(data, quads, done) == Quad(data) + [NEWLINE] + Encode(data[3..], quads, 0)
    ensures |data| >= 3 && done + 1 != quads ==>
              Encode(data, quads, done) == Quad(data) + Encode(data[3..], quads, done + 1)
  {
  }

  // The test vectors of RFC 4648, section 10.

  lemma SextetsOf(a: byte, b: byte, c: byte, s0: nat, s1: nat, s2: nat, s3: nat)
    requires s1 < 64 && s2 < 64 && s3 < 64
    requires a * 65536 + b * 256 + c == 262144 * s0 + 4096 * s1 + 64 * s2 + s3
    ensures Sextet(a, b, c, 0) == s0 && Sextet(a, b, c, 1) == s1 && Sextet(a, b, c, 2) == s2 && Sextet(a, b, c, 3) == s3
  {
    var group := a * 65536 + b * 256 + c;
    DivideUnique(group, 262144, s0, 4096 * s1 + 64 * s2 + s3);
    SextetAt(group, 4096, s0, s1, 64 * s2 + s3);
    SextetAt(group, 64, 64 * s0 + s1, s2, s3);
    SextetAt(group, 1, 4096 * s0 + 64 * s1 + s2, s3, 0);
  }

  lemma QuadsOfFoo()
    ensures Quad(Codes("f")) == Codes("Zg==") && Quad(Codes("fo")) == Codes("Zm8=")
    ensures Quad(Codes("foo")) == Codes("Zm9v")
  {
    hide Sextet;
    SextetsOf(102, 0, 0, 25, 32, 0, 0);
    SextetsOf(102, 111, 0, 25, 38, 60, 0);
    SextetsOf(102, 111, 111, 25, 38, 61, 47);
  }

  lemma QuadsOfBar()
    ensures Quad(Codes("b")) == Codes("Yg==") && Quad(Codes("ba")) == Codes("YmE=")
    ensures Quad(Codes("bar")) == Codes("YmFy")
  {
    hide Sextet;
    SextetsOf(98, 0, 0, 24, 32, 0, 0);
    SextetsOf(98, 97, 0, 24, 38, 4, 0);
    SextetsOf(98, 97, 114, 24, 38, 5, 50);
  }

  lemma FooVectors()
    ensures Encode(Codes(""), 0, 0) == Codes("") && Encode(Codes("f"), 0, 0) == Codes("Zg==")
    ensures Encode(Codes("fo"), 0, 0) == Codes("Zm8=") && Encode(Codes("foo"), 0, 0) == Codes("Zm9v")
  {
    hide Encode, Quad;
    QuadsOfFoo();
    EncodeStep(Codes(""), 0, 0);
    EncodeStep(Codes("f"), 0, 0);
    EncodeStep(Codes("fo"), 0, 0);
    EncodeStep(Codes("foo"), 0, 0);
    EncodeStep([], 0, 1);
    assert Codes("foo")[3..] == [];
  }

  lemma FooBarVectors()
    ensures Encode(Codes("foob"), 0, 0) == Codes("Zm9vYg==") && Encode(Codes("fooba"), 0, 0) == Codes("Zm9vYmE=")
    ensures Encode(Codes("foobar"), 0, 0) == Codes("Zm9vYmFy")
    ensures Encode(Codes("foobar"), 1, 0) == Codes("Zm9v\nYmFy\n")
  {
    hide Encode, Quad;
    FooBarIs();
    QuadsOfFoo();
    QuadsOfBar();
    FooAnd(Codes("b"));
    FooAnd(Codes("ba"));
    FooAnd(Codes("bar"));
    EncodeStep(Codes("b"), 0, 1);
    EncodeStep(Codes("ba"), 0, 1);
    EncodeStep(Codes("bar"), 0, 1);
    EncodeStep(Codes("bar"), 1, 0);
    EncodeStep([], 0, 2);
    EncodeStep([], 1, 0);
    assert Codes("bar")[3..] == [];
  }

  lemma FooBarIs()
    ensures Codes("foo") + Codes("b") == Codes("foob") && Codes("foo") + Codes("ba") == Codes("fooba")
    ensures Codes("foo") + Codes("bar") == Codes("foobar")
  {
  }

  lemma FooBarDecoded(s: seq<byte>, data: seq<byte>)
    requires (s == Codes("Zm9vYg==") && data == Codes("foob")) || (s == Codes("Zm9vYmE=") && data == Codes("fooba"))
             || ((s == Codes("Zm9vYmFy") || s == Codes("Zm9v\nYmFy\n")) && data == Codes("foobar"))
    ensures Decode(s) == Data(data)
  {
    hide Encode, Decode;
    FooBarVectors();
    DecodeUndoesEncode(data, 0, 0);
    DecodeUndoesEncode(data, 1, 0);
  }

  lemma FooAnd(data: seq<byte>)
    ensures Encode(Codes("foo") + data, 0, 0) == Codes("Zm9v") + Encode(data, 0, 1)
    ensures Encode(Codes("foo") + data, 1, 0) == Codes("Zm9v\n") + Encode(data, 1, 0)
  {
    hide Encode, Sextet, Ntc;
    QuadsOfFoo();
    var all := Codes("foo") + data;
    EncodeStep(all, 0, 0);
    EncodeStep(all, 1, 0);
    assert all[3..] == data && Codes("foo")[..3] == Codes("foo");
    assert Quad(all) == Quad(Codes("foo")) && Codes("Zm9v") + [NEWLINE] == Codes("Zm9v\n");
  }

  /** `mgwsi_b64_encode`: a buffer of the computed size is enough, and holds exactly the encoding. */
  method B64Encode(from: seq<byte>, to: array<byte>, quads: nat) returns (length: nat)
    requires to.Length >= EncBufferSize(|from|, quads)
    modifies to
    ensures length <= to.Length && to[..length] == Encode(from, quads, 0)
    ensures forall k :: length <= k < to.Length ==> to[k] == old(to[k])
  {
    hide EncBufferSize, Quad, Encode;
    EncodingFits(from, quads);
    var i, qc, pos := 0, 0, 0;
    ghost var all := Encode(from, quads, 0);
    assert from[0..] == from;
    while i < |from|
      invariant i <= |from| && pos <= |all| <= to.Length
      invariant to[..pos] + Encode(from[i..], quads, qc) == all
      invariant forall k :: pos <= k < to.Length ==> to[k] == old(to[k])
    {
      ghost var group, written := from[i..], to[..pos];
      EncodeStep(group, quads, qc);
      var next, end := EncodeGroup(from, i, to, pos);
      assert to[..pos] == written;
      assert to[..end] == written + Quad(group);
      var partial := i + 3 > |from|;
      i, pos := next, end;
      if partial {
        assert to[..pos] == all;
        break;
      }
      assert from[i..] == group[3..];
      qc := qc + 1;
      if qc == quads {
        to[pos] := NEWLINE;
        pos := pos + 1;
        qc := 0;
        assert to[..pos] == written + Quad(group) + [NEWLINE];
      }
    }
    EncodeStep([], quads, qc);
    assert from[i..] == [] && to[..pos] + [] == to[..pos];
    length := pos;
  }

  /** One of the four inner loops of the decoder: skips ignored characters. */
  method ReadSymbol(from: seq<byte>, start: nat) returns (value: byte, i: nat)
    requires start <= |from|
    ensures start <= i <= |from| && value == Next(from[start..]).0 && from[i..] == Next(from[start..]).1
    ensures value != IGNORED ==> i > start
  {
    value, i := IGNORED, start;
    while value == IGNORED && i < |from|
      invariant start <= i <= |from| && (value != IGNORED ==> i > start)
      invariant if value == IGNORED then Next(from[i..]) == Next(from[start..])
                else value == Next(from[start..]).0 && from[i..] == Next(from[start..]).1
      decreases |from| - i
    {
      assert from[i..][1..] == from[i + 1..];
      value := Ctn(from[i]);
      i := i + 1;
    }
  }

  /** The bytes of one group, as the source stores them: from the last to the first. */
  method StoreGroup(c: byte, d: byte, e: byte, f: byte, to: array<byte>, at: nat) returns (add: nat)
    requires at + 3 <= to.Length
    modifies to
    ensures add == |Group(c, d, e, f)| && to[at..at + add] == Group(c, d, e, f)
    ensures forall k :: 0 <= k < at ==> to[k] == old(to[k])
  {
    GroupFits(c, d, e, f);
    add := 0;
    if c < 64 {
      if d < 64 {
        if e < 64 {
          if f < 64 {
            to[at + 2] := e * 64 % 256 + f;
            add := add + 1;
          }
          to[at + 1] := d * 16 % 256 + e / 4;
          add := add + 1;
        }
        to[at] := c * 4 % 256 + d / 16;
        add := add + 1;
      }
    }
  }

  /** The four inner loops of the decoder; four symbols take at least four characters. */
  method ReadFour(from: seq<byte>, start: nat) returns (c: byte, d: byte, e: byte, f: byte, i: nat)
    requires start <= |from|
    ensures start <= i <= |from| && Four(from[start..]) == (c, d, e, f, from[i..])
    ensures f != IGNORED ==> i >= start + 4
  {
    hide Next;
    i := start;
    c, i := ReadSymbol(from, i);
    d, i := ReadSymbol(from, i);
    e, i := ReadSymbol(from, i);
    f, i := ReadSymbol(from, i);
  }

  /** The bytes that `n` characters can decode to. */
  function Room(n: nat): nat {
    n / 4 * 3
  }

  lemma RoomForGroup(i: nat, i4: nat, n: nat)
    requires i + 4 <= i4 <= n
    ensures Room(i) + 3 <= Room(i4) <= Room(n)
  {
  }

  /** `mgwsi_b64_decode`: -1 is returned when decoding fails; DecodeFailsExactly says when. */
  method B64Decode(from: seq<byte>, to: array<byte>) returns (length: int)
    requires to.Length >= Room(|from|)
    modifies to
    ensures -1 <= length <= to.Length
    ensures Decode(from) == if length < 0 then Failed else Data(to[..length])
  {
    hide Four, Group, Decode, Decoding, Room;
    var i: nat, pos: nat := 0, 0;
    DecodingStarts(from);
    while i + 3 < |from|
      invariant i <= |from| && pos <= Room(i) && pos <= to.Length && Decoding(from, i, to[..pos])
      decreases |from| - i
    {
      ghost var decoded := to[..pos];
      var c, d, e, f, i4 := ReadFour(from, i);
      DecodingGoesOn(from, i, decoded, c, d, e, f, i4);
      if f == IGNORED {
        return -1;
      }
      RoomForGroup(i, i4, |from|);
      var add := StoreGroup(c, d, e, f, to, pos);
      pos := pos + add;
      assert to[..pos] == decoded + Group(c, d, e, f);
      if f == PADDING {
        return pos;
      }
      i := i4;
    }
    DecodingEnds(from, i, to[..pos]);
    length := pos;
  }
}
