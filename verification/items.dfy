/** Request elements: self-delimiting item headers appended to a growing buffer. */
module Items {
  import opened Basics
  import opened WsBytes
  import opened Sizes

  const TX_AREC_FORMATTED := 9

  /** The bytes of a C string: up to its terminator. */
  function CString(memory: seq<byte>): (text: seq<byte>)
    requires 0 in memory
    ensures |text| < |memory| && text == memory[..|text|] && 0 !in text && memory[|text|] == 0
  {
    if memory[0] == 0 then [] else [memory[0]] + CString(memory[1..])
  }

  /** What `mgwsi_mem_cpy` and `mgwsi_mem_cat` take from their argument: a size of zero asks for a C string. */
  function Taken(memory: seq<byte>, size: nat): (taken: seq<byte>)
    requires size <= |memory| && (size == 0 ==> 0 in memory)
    ensures taken <= memory
    ensures if size > 0 then |taken| == size else |taken| < |memory| && 0 !in taken && memory[|taken|] == 0
  {
    if size == 0 then CString(memory) else memory[..size]
  }

  /** A growing buffer (`MGWSIBUF`). */
  class MemBuffer {
    var lpBuffer: array<byte>
    var size: nat
    var incrementSize: nat
    var dataSize: nat

    ghost predicate Valid()
      reads this, lpBuffer
    {
      && lpBuffer.Length == size + 1 && dataSize <= size && incrementSize > 0
      && lpBuffer[dataSize] == 0
    }

    ghost function Contents(): seq<byte>
      reads this, lpBuffer
      requires Valid()
    {
      lpBuffer[..dataSize]
    }

    /** `mgwsi_mem_init`. */
    constructor (size: nat, incrementSize: nat)
      requires incrementSize > 0
      ensures Valid() && Contents() == [] && fresh(lpBuffer)
      ensures this.size == size && this.incrementSize == incrementSize
    {
      var block := new byte[size + 1];
      block[0] := 0;
      lpBuffer := block;
      this.size, this.incrementSize, dataSize := size, incrementSize, 0;
    }

    /** The capacity reached by adding increments until `required` fits. */
    method Grown(required: nat) returns (csize: nat)
      requires incrementSize > 0
      ensures csize >= required && csize >= size
      ensures csize == size || (csize - size) % incrementSize == 0
      ensures csize > size ==> csize - incrementSize < required
    {
      csize := size;
      ghost var steps := 0;
      while required > csize
        invariant csize == size + steps * incrementSize && steps >= 0
        invariant csize > size ==> csize - incrementSize < required
        decreases required - csize
      {
        csize := csize + incrementSize;
        steps := steps + 1;
      }
      MultipleModulo(steps, incrementSize);
    }

    /** Makes room, keeping the contents. */
    method Reserve(required: nat)
      requires Valid()
      modifies this`lpBuffer, this`size
      ensures Valid() && size >= required && Contents() == old(Contents())
      ensures lpBuffer == old(lpBuffer) || fresh(lpBuffer)
    {
      if required > this.size {
        var csize := Grown(required);
        var block := new byte[csize + 1];
        CopyInto(block, 0, lpBuffer[..dataSize + 1]);
        assert block[..dataSize] == block[0..dataSize + 1][..dataSize] == lpBuffer[..dataSize];
        assert block[dataSize] == block[0..dataSize + 1][dataSize];
        lpBuffer, this.size := block, csize;
      }
    }

    /** `mgwsi_mem_cat` is plain append. */
    method MemCat(memory: seq<byte>, size: nat)
      requires Valid() && size <= |memory| && (size == 0 ==> 0 in memory)
      modifies this, lpBuffer
      ensures Valid() && (lpBuffer == old(lpBuffer) || fresh(lpBuffer))
      ensures Contents() == old(Contents()) + Taken(memory, size)
    {
      hide CString;
      ghost var before := Contents();
      var data := Taken(memory, size);
      if |data| == 0 {
        return;
      }
      var reqSize := |data| + dataSize;
      var tsize := dataSize;
      Reserve(reqSize);
      CopyInto(lpBuffer, tsize, data);
      assert lpBuffer[..reqSize] == lpBuffer[..tsize] + lpBuffer[tsize..reqSize];
      dataSize := reqSize;
      lpBuffer[dataSize] := 0;
    }

    /** `mgwsi_mem_cpy` replaces the contents. */
    method MemCpy(memory: seq<byte>, size: nat)
      requires Valid() && size <= |memory| && (size == 0 ==> 0 in memory)
      modifies this, lpBuffer
      ensures Valid() && (lpBuffer == old(lpBuffer) || fresh(lpBuffer))
      ensures Contents() == Taken(memory, size)
    {
      hide CString;
      var data := Taken(memory, size);
      if |data| == 0 {
        dataSize := 0;
        lpBuffer[0] := 0;
        return;
      }
      if |data| > this.size {
        var unused := Grown(|data|);  // computed by the source, which then allocates exactly the data's size
        var block := new byte[|data| + 1];
        lpBuffer, this.size := block, |data|;
      }
      CopyInto(lpBuffer, 0, data);
      assert lpBuffer[..|data|] == lpBuffer[0..|data|];
      dataSize := |data|;
      lpBuffer[dataSize] := 0;
    }

    /** `mgwsi_request_add`: a header and the element's bytes, or the bytes alone if they are formatted already. */
    method RequestAdd(element: seq<byte>, size: nat, byref: nat, txType: nat)
      requires Valid() && size <= |element|
      requires if txType == TX_AREC_FORMATTED then size == 0 ==> 0 in element
               else size < Power(10, 7) && byref <= 3 && txType <= 7
      modifies this, lpBuffer
      ensures Valid() && (lpBuffer == old(lpBuffer) || fresh(lpBuffer))
      ensures Contents() == old(Contents()) +
                (if txType == 9 then Taken(element, size)
                 else EncodeElement(Element(element[..size], byref, txType)))
    {
      hide Numeral, ItemHeader, CString;
      if txType == TX_AREC_FORMATTED {
        MemCat(element, size);
        return;
      }
      var head := new byte[16];
      var hlen := EncodeItemHeader(head, size, byref, txType);
      ghost var before := Contents();
      MemCat(head[..], hlen);
      assert head[..][..hlen] == head[..hlen];
      if size > 0 {
        MemCat(element, size);
      }
      Assoc(before, ItemHeader(size, byref, txType), element[..size]);
      assert size == 0 ==> element[..size] == [] && Contents() + [] == Contents();
    }
  }

  lemma MultipleModulo(k: nat, d: nat)
    requires d > 0
    ensures (k * d) % d == 0
  {
    DivideUnique(k * d, d, k, 0);
  }

  // ---------------------------------------------------------------------------
  // Item headers
  // ---------------------------------------------------------------------------

  datatype Element = Element(data: seq<byte>, byref: nat, txType: nat)
  {
    predicate Taggable() {
      |data| < Power(10, 7) && byref <= 3 && txType <= 7
    }
  }

  lemma DecimalNumeral(size: nat)
    requires size < Power(10, 7)
    ensures |Numeral(size, 10)| <= 7 && AllDecimal(Numeral(size, 10)) && Number(Numeral(size, 10), 10) == size
    ensures Power(10, 7) == 10_000_000
  {
    NumeralLength(size, 10, 7);
    NumeralRoundTrip(size, 10);
    DigitsAreDecimal(size);
    assert Power(10, 3) == 1000;
    assert Power(10, 6) == 1_000_000;
  }

  lemma {:induction false} DigitsAreDecimal(n: nat)
    ensures AllDecimal(Numeral(n, 10))
    decreases n
  {
    DivMod(n, 10);
    if n >= 10 {
      DigitsAreDecimal(n / 10);
    }
  }

  /** One byte of lengths and flags, then the size in decimal. */
  function ItemHeader(size: nat, byref: nat, txType: nat): (header: seq<byte>)
    requires size < Power(10, 7) && byref <= 3 && txType <= 7
  {
    DecimalNumeral(size);
    [|Numeral(size, 10)| + txType * 8 + byref * 64] + Numeral(size, 10)
  }

  /** `mgwsi_encode_item_header`, which also leaves a '0' behind the header. */
  method EncodeItemHeader(head: array<byte>, size: nat, byref: nat, txType: nat) returns (hlen: nat)
    requires head.Length >= 16 && size < Power(10, 7) && byref <= 3 && txType <= 7
    modifies head
    ensures 0 < hlen < head.Length && head[..hlen] == ItemHeader(size, byref, txType)
  {
    hide Numeral, Power, Number, AllDecimal;
    DecimalNumeral(size);
    var esize, _ := EncodeSize(size, 10);
    var slen := |esize|;
    head[0] := slen + txType * 8 + byref * 64;
    CopyInto(head, 1, esize);
    hlen := slen + 1;
    head[hlen] := 48;
    assert head[1..hlen] == esize;
    assert head[..hlen] == [head[0]] + head[1..hlen];
  }

  /** `mgwsi_decode_item_header`. The size is read as `strtol` reads it, and is that of the digits when there is
      nothing else. */
  method DecodeItemHeader(head: seq<byte>) returns (hlen: nat, size: int, byref: nat, txType: nat)
    requires |head| > 0 && |head| > head[0] % 8
    ensures hlen == 1 + head[0] % 8 && size == Decimal(head[1..hlen])
    ensures AllDecimal(head[1..hlen]) ==> size == Number(head[1..hlen], 10)
    ensures byref == head[0] / 64 && txType == head[0] % 64 / 8
  {
    hide Decimal;
    var code := head[0];
    byref := code / 64;
    txType := code % 64 / 8;
    var slen := code % 8;
    SevenCharacters(head[1..1 + slen]);
    size := DecodeSize(head[1..1 + slen], 10);
    if AllDecimal(head[1..1 + slen]) {
      DigitsAreRead(head[1..1 + slen]);
    }
    hlen := slen + 1;
  }

  /** A number of up to seven characters is in the range of an `int`. */
  lemma SevenCharacters(text: seq<byte>)
    requires |text| <= 7
    ensures -INT32_LIMIT < Decimal(text) < INT32_LIMIT
  {
    var s := SkipBlanks(text);
    BlanksShorten(text);
    SevenDigits(LeadingDigits(s));
    if s != [] {
      SevenDigits(LeadingDigits(s[1..]));
    }
  }

  lemma {:induction false} BlanksShorten(s: seq<byte>)
    ensures |SkipBlanks(s)| <= |s|
  {
    if s != [] && IsBlank(s[0]) {
      BlanksShorten(s[1..]);
    }
  }

  lemma SevenDigits(digits: seq<byte>)
    requires AllDecimal(digits) && |digits| <= 7
    ensures Number(digits, 10) < Power(10, |digits|) <= Power(10, 7) < INT32_LIMIT
  {
    NumberBound(digits, 10);
    PowerGrows(10, |digits|, 7);
    assert Power(10, 3) == 1000;
    assert Power(10, 6) == 1_000_000;
  }

  function EncodeElement(e: Element): seq<byte>
    requires e.Taggable()
  {
    ItemHeader(|e.data|, e.byref, e.txType) + e.data
  }

  function EncodeElements(elements: seq<Element>): seq<byte>
    requires forall e :: e in elements ==> e.Taggable()
  {
    if elements == [] then [] else EncodeElement(elements[0]) + EncodeElements(elements[1..])
  }

  /** Reads elements with the item header decoder until the bytes run out. */
  function ReadElements(s: seq<byte>): seq<Element>
    decreases |s|
  {
    if s == [] || |s| <= s[0] % 8 || !AllDecimal(s[1..1 + s[0] % 8]) then []
    else
      var hlen := 1 + s[0] % 8;
      var size := Number(s[1..hlen], 10);
      if |s| < hlen + size then []
      else [Element(s[hlen..hlen + size], s[0] / 64, s[0] % 64 / 8)] + ReadElements(s[hlen + size..])
  }

  /** The head byte holds three fields that do not overlap. */
  lemma HeadByte(slen: nat, txType: nat, byref: nat)
    requires slen <= 7 && txType <= 7 && byref <= 3
    ensures var code := slen + txType * 8 + byref * 64;
            code % 8 == slen && code % 64 / 8 == txType && code / 64 == byref && code < 256
  {
    var low := slen + txType * 8;
    assert low < 64 && low / 8 == txType && low % 8 == slen;
    assert (low + byref * 64) % 64 == low;
  }

  lemma ElementReads(e: Element, rest: seq<byte>)
    requires e.Taggable()
    ensures EncodeElement(e) + rest != []
    ensures ReadElements(EncodeElement(e) + rest) == [e] + ReadElements(rest)
  {
    hide Numeral, Number, AllDecimal, Power;
    var s, digits := EncodeElement(e) + rest, Numeral(|e.data|, 10);
    DecimalNumeral(|e.data|);
    HeadByte(|digits|, e.txType, e.byref);
    var code: byte := |digits| + e.txType * 8 + e.byref * 64;
    assert s == [code] + digits + e.data + rest;
    PartsOfElement(code, digits, e.data, rest);
  }

  lemma PartsOfElement(code: byte, digits: seq<byte>, data: seq<byte>, rest: seq<byte>)
    ensures var s, hlen := [code] + digits + data + rest, 1 + |digits|;
            && s[0] == code && s[1..hlen] == digits
            && s[hlen..hlen + |data|] == data && s[hlen + |data|..] == rest
  {
  }

  /** Any sequence of elements, whatever their bytes, is recovered from its encoding. */
  lemma {:induction false} ElementsRoundTrip(elements: seq<Element>)
    requires forall e :: e in elements ==> e.Taggable()
    ensures ReadElements(EncodeElements(elements)) == elements
    decreases |elements|
  {
    hide EncodeElement;
    if elements != [] {
      ElementsRoundTrip(elements[1..]);
      ElementReads(elements[0], EncodeElements(elements[1..]));
    }
  }

  /** Adding an element, or a buffer of formatted elements, extends the encoded sequence at its end. */
  lemma {:induction false} ElementsAppend(a: seq<Element>, b: seq<Element>)
    requires forall e :: e in a + b ==> e.Taggable()
    ensures (forall e :: e in a ==> e.Taggable()) && (forall e :: e in b ==> e.Taggable())
    ensures EncodeElements(a + b) == EncodeElements(a) + EncodeElements(b)
    decreases |a|
  {
    hide EncodeElement;
    forall e | e in a || e in b
      ensures e.Taggable()
    {
      assert e in a + b;
    }
    if a == [] {
      assert a + b == b;
    } else {
      assert (a + b)[1..] == a[1..] + b;
      forall e | e in a[1..] + b
        ensures e.Taggable()
      {
        assert e in a + b;
      }
      ElementsAppend(a[1..], b);
      assert EncodeElement(a[0]) + (EncodeElements(a[1..]) + EncodeElements(b))
          == (EncodeElement(a[0]) + EncodeElements(a[1..])) + EncodeElements(b);
    }
  }

  // ---------------------------------------------------------------------------
  // From a buffer and back
  // ---------------------------------------------------------------------------

  /** Adds elements one after the other, as the request builder does. */
  method AddAll(buffer: MemBuffer, elements: seq<Element>)
    requires buffer.Valid() && forall e :: e in elements ==> e.Taggable()
    modifies buffer, buffer.lpBuffer
    ensures buffer.Valid() && (buffer.lpBuffer == old(buffer.lpBuffer) || fresh(buffer.lpBuffer))
    ensures buffer.Contents() == old(buffer.Contents()) + EncodeElements(elements)
  {
    hide EncodeElement, Element.Taggable;
    ghost var before := buffer.Contents();
    assert before + [] == before;
    for i := 0 to |elements|
      invariant buffer.Valid() && (buffer.lpBuffer == old(buffer.lpBuffer) || fresh(buffer.lpBuffer))
      invariant forall e :: e in elements[..i] ==> e.Taggable()
      invariant buffer.Contents() == before + EncodeElements(elements[..i])
    {
      var e := elements[i];
      AddOne(buffer, e);
      assert elements[..i + 1] == elements[..i] + [e];
      EncodeOneMore(elements[..i], e);
      Assoc(before, EncodeElements(elements[..i]), EncodeElement(e));
    }
    assert elements[..|elements|] == elements;
  }

  method AddOne(buffer: MemBuffer, e: Element)
    requires buffer.Valid() && e.Taggable()
    modifies buffer, buffer.lpBuffer
    ensures buffer.Valid() && (buffer.lpBuffer == old(buffer.lpBuffer) || fresh(buffer.lpBuffer))
    ensures buffer.Contents() == old(buffer.Contents()) + EncodeElement(e)
  {
    assert e.data[..|e.data|] == e.data && e == Element(e.data, e.byref, e.txType);
    buffer.RequestAdd(e.data, |e.data|, e.byref, e.txType);
  }

  lemma EncodeOneMore(elements: seq<Element>, e: Element)
    requires e.Taggable() && forall x :: x in elements ==> x.Taggable()
    ensures forall x :: x in elements + [e] ==> x.Taggable()
    ensures EncodeElements(elements + [e]) == EncodeElements(elements) + EncodeElement(e)
  {
    ElementsAppend(elements, [e]);
    assert EncodeElements([e]) == EncodeElement(e) + [];
  }

  /** Reads elements back with the item header decoder. */
  method ReadAll(s: seq<byte>) returns (elements: seq<Element>)
    ensures elements == ReadElements(s)
  {
    hide Number, AllDecimal;
    elements := [];
    var rest := s;
    while rest != [] && |rest| > rest[0] % 8 && AllDecimal(rest[1..1 + rest[0] % 8])
      invariant ReadElements(s) == elements + ReadElements(rest)
      decreases |rest|
    {
      var hlen, size, byref, txType := DecodeItemHeader(rest);
      if |rest| < hlen + size {
        break;
      }
      var e := Element(rest[hlen..hlen + size], byref, txType);
      Assoc(elements, [e], ReadElements(rest[hlen + size..]));
      elements := elements + [e];
      rest := rest[hlen + size..];
    }
    assert ReadElements(rest) == [];
  }

  /** Elements put into a new buffer are read back from its contents, whatever their bytes and however the buffer
      grows. */
  method AddAndReadBack(elements: seq<Element>, size: nat, incrementSize: nat) returns (result: seq<Element>)
    requires incrementSize > 0 && forall e :: e in elements ==> e.Taggable()
    ensures result == elements
  {
    var buffer := new MemBuffer(size, incrementSize);
    AddAll(buffer, elements);
    assert [] + EncodeElements(elements) == EncodeElements(elements);
    ElementsRoundTrip(elements);
    result := ReadAll(buffer.lpBuffer[..buffer.dataSize]);
  }
}
