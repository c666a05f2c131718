/** `mgwsi_db_receive` in terminator mode: data until a terminator that may straddle buffers and reads. */
module Terminator {
  import opened Basics
  import opened WsBytes

  /** The test of the source: strictly more bytes than the terminator, the last of them being the terminator. */
  predicate Terminated(s: seq<byte>, term: seq<byte>) {
    |s| > |term| && EndsWith(s, term)
  }

  /** No proper prefix of the stream already looks terminated. */
  ghost predicate NoEarlyTerminator(s: seq<byte>, term: seq<byte>) {
    forall k :: 0 <= k < |s| ==> !Terminated(s[..k], term)
  }

  /** What is left of a terminated stream without its terminator. */
  function PayloadOf(s: seq<byte>, term: seq<byte>): seq<byte>
    requires |s| >= |term|
  {
    s[..|s| - |term|]
  }

  const ULONG_MAX := 0xFFFF_FFFF_FFFF_FFFF

  /** The part of a server connection that receiving uses. `bytewise` fixes the network to one byte a read;
      otherwise every read returns some non-empty piece of what is left. */
  class Connection {
    const bytewise: bool
    const bTerm: seq<byte>
    var bTermOverlap: seq<byte>
    var endOfStream: bool
    var eod: bool
    var dataSize: int
    var stream: seq<byte>         // bytes not yet received
    ghost var seen: seq<byte>     // bytes received
    ghost var delivered: seq<byte>  // bytes handed to the caller
    ghost var ends: set<nat>      // how many bytes had been received at the end of each read

    ghost predicate Valid()
      reads this
    {
      && 0 < |bTerm| < 8 && 0 !in bTerm
      && (|bTermOverlap| == 0 || |bTermOverlap| == |bTerm|) && ReadsHold()
      && if endOfStream then Terminated(seen, bTerm) && seen == delivered + bTerm && NothingEarlier(|seen| - 1)
         else !eod ==>
           && seen == delivered + bTermOverlap && NothingEarlier(|seen|)
           && !Terminated(seen, bTerm) && (bTermOverlap == [] ==> seen == [])
    }

    /** The last read ended with the last byte received; with one byte a read, every byte ended one. */
    ghost predicate ReadsHold()
      reads this`seen, this`ends
    {
      && (forall k :: k in ends ==> 0 < k <= |seen|)
      && (seen != [] ==> |seen| in ends)
      && (bytewise ==> forall k :: 0 < k <= |seen| ==> k in ends)
    }

    /** At the end of no read up to `bound` did what was received look terminated. */
    ghost predicate NothingEarlier(bound: int)
      reads this`seen, this`ends
    {
      forall k :: k in ends && k <= bound && k <= |seen| ==> !Terminated(seen[..k], bTerm)
    }

    constructor (bytewise: bool, term: seq<byte>, stream: seq<byte>)
      requires 0 < |term| < 8 && 0 !in term
      ensures Valid() && !endOfStream && !eod && seen == [] && delivered == [] && ends == {}
      ensures this.bytewise == bytewise && bTerm == term && this.stream == stream
    {
      this.bytewise, bTerm, this.stream := bytewise, term, stream;
      bTermOverlap, endOfStream, eod, dataSize := [], false, false, 0;
      seen, delivered, ends := [], [], {};
    }

    /** `recv`: the network decides how much of the stream arrives. */
    method Recv(size: nat) returns (data: seq<byte>)
      requires size > 0
      modifies this`stream
      ensures data + stream == old(stream) && |data| <= size
      ensures data == [] <==> old(stream) == []
      ensures bytewise ==> |data| <= 1
    {
      if stream == [] {
        return [];
      }
      var n := 1;
      if !bytewise {
        n :| 1 <= n <= size && n <= |stream|;
      }
      data, stream := stream[..n], stream[n..];
    }

    /** In the middle of a call: the first `len` bytes of the buffer are the end of what was received. */
    ghost predicate Collecting(lpBuffer: array<byte>, len: nat)
      reads this`eod, this`endOfStream, this`bTermOverlap, this`seen, this`delivered, this`ends, lpBuffer
    {
      && ReadsHold() && 0 < |bTerm| < 8 && 0 !in bTerm && len <= lpBuffer.Length
      && !eod && !endOfStream && bTermOverlap == []
      && seen == delivered + lpBuffer[..len]
      && (delivered != [] ==> len >= |bTerm|)
    }

    /** Restores the bytes carried over from the previous call. */
    method RestoreOverlap(lpBuffer: array<byte>) returns (len: nat)
      requires Valid() && !eod && !endOfStream && lpBuffer.Length > |bTerm|
      modifies this`bTermOverlap, this`dataSize, lpBuffer
      ensures len <= |bTerm| && Collecting(lpBuffer, len)
    {
      len := 0;
      if |bTermOverlap| > 0 {
        CopyInto(lpBuffer, 0, bTermOverlap);
        len := |bTermOverlap|;
        dataSize := len;
        assert lpBuffer[..len] == lpBuffer[0..len];
        bTermOverlap := [];
      }
    }

    /** Records a read in the history. */
    ghost method Note(data: seq<byte>)
      requires ReadsHold() && !Terminated(seen, bTerm) && NothingEarlier(|seen|) && (bytewise ==> |data| <= 1)
      modifies this`seen, this`ends
      ensures seen == old(seen) + data && ReadsHold()
      ensures NothingEarlier(if data == [] then |seen| else |seen| - 1)
    {
      hide Terminated;
      ghost var before := seen;
      if data == [] {
        assert seen + data == seen;
      } else {
        seen := seen + data;
        ends := ends + {|seen|};
        assert forall k :: 0 <= k <= |before| ==> seen[..k] == before[..k];
      }
    }

    /** One read into the buffer. */
    method ReceivePiece(lpBuffer: array<byte>, len: nat, total: nat) returns (n: nat)
      requires Collecting(lpBuffer, len) && len < total < lpBuffer.Length
      requires !Terminated(seen, bTerm) && NothingEarlier(|seen|)
      modifies this`stream, this`seen, this`ends, lpBuffer
      ensures Collecting(lpBuffer, len + n) && len + n <= total && NothingEarlier(if n == 0 then |seen| else |seen| - 1)
      ensures |seen| == old(|seen|) + n && seen + stream == old(seen + stream)
      ensures n == 0 ==> stream == [] && seen == old(seen)
    {
      hide Terminated;
      var data := Recv(total - len);
      n := |data|;
      CopyInto(lpBuffer, len, data);
      assert lpBuffer[..len + n] == lpBuffer[..len] + lpBuffer[len..len + n];
      lpBuffer[len + n] := 0;
      Assoc(seen, data, stream);
      Note(data);
    }

    /** The terminator has arrived: the bytes before it go to the caller. */
    method Conclude(lpBuffer: array<byte>, len: nat)
      requires Collecting(lpBuffer, len) && len > |bTerm| && lpBuffer[len - |bTerm|..len] == bTerm
      requires Terminated(seen, bTerm) && NothingEarlier(|seen| - 1)
      modifies this`endOfStream, this`delivered
      ensures Valid() && endOfStream && delivered == old(delivered) + lpBuffer[..len - |bTerm|]
    {
      hide Terminated;
      endOfStream := true;
      delivered := delivered + lpBuffer[..len - |bTerm|];
      assert lpBuffer[..len] == lpBuffer[..len - |bTerm|] + bTerm;
      assert seen == delivered + bTerm;
    }

    /** The buffer is full: its last bytes, which may begin the terminator, are kept for the next call. */
    method CarryOver(lpBuffer: array<byte>, total: nat)
      requires Collecting(lpBuffer, total) && |bTerm| < total < lpBuffer.Length
      requires !Terminated(seen, bTerm) && NothingEarlier(|seen|)
      modifies this`bTermOverlap, this`delivered, lpBuffer
      ensures Valid() && delivered == old(delivered) + lpBuffer[..total - |bTerm|]
    {
      hide Terminated;
      bTermOverlap := lpBuffer[total - |bTerm|..total];
      delivered := delivered + lpBuffer[..total - |bTerm|];
      assert lpBuffer[..total] == lpBuffer[..total - |bTerm|] + bTermOverlap;
      assert seen == delivered + bTermOverlap;
      lpBuffer[total - |bTerm|] := 0;
    }

    /** What follows a read: the call ends with a result if the terminator has arrived or the buffer is full. */
    method AfterPiece(lpBuffer: array<byte>, len: nat, total: nat) returns (result: nat)
      requires Collecting(lpBuffer, len) && (delivered != [] ==> len > |bTerm|)
      requires |bTerm| < total < lpBuffer.Length && len <= total && NothingEarlier(|seen| - 1)
      modifies this`endOfStream, this`bTermOverlap, this`delivered, lpBuffer
      ensures result > 0 ==> Valid() && result < lpBuffer.Length && delivered == old(delivered) + lpBuffer[..result]
      ensures result == 0 ==> Collecting(lpBuffer, len) && len < total && delivered == old(delivered)
      ensures result == 0 ==> !Terminated(seen, bTerm) && NothingEarlier(|seen|)
    {
      hide Terminated, NothingEarlier;
      TestIsExact(lpBuffer, len);
      if len > |bTerm| && lpBuffer[len - |bTerm|..len] == bTerm {
        Conclude(lpBuffer, len);
        return len - |bTerm|;
      }
      NothingAtAll();
      if len >= total {
        CarryOver(lpBuffer, total);
        return len - |bTerm|;
      }
      return 0;
    }

    /** The loop of the source: reads until the terminator, a full buffer, or the end of the stream. */
    method ReceiveLoop(lpBuffer: array<byte>, start: nat, total: nat) returns (result: int)
      requires Collecting(lpBuffer, start) && start <= |bTerm| < total < lpBuffer.Length
      requires !Terminated(seen, bTerm) && NothingEarlier(|seen|)
      modifies this`eod, this`endOfStream, this`bTermOverlap, this`delivered, this`stream, this`seen, this`ends
      modifies lpBuffer
      ensures seen + stream == old(seen + stream) && |seen| >= old(|seen|)
      ensures result == -1 || 0 < result < lpBuffer.Length
      ensures result > 0 ==> Valid() && !eod && delivered == old(delivered) + lpBuffer[..result] && |seen| > old(|seen|)
      ensures result == -1 ==> eod && !endOfStream && stream == [] && |bTermOverlap| == 0
                               && !Terminated(seen, bTerm) && NothingEarlier(|seen|) && ReadsHold()
    {
      hide Terminated, NothingEarlier, Valid;
      var len: nat := start;
      while true
        invariant Collecting(lpBuffer, len) && len < total && delivered == old(delivered)
        invariant seen + stream == old(seen + stream) && |seen| >= old(|seen|)
        invariant !Terminated(seen, bTerm) && NothingEarlier(|seen|)
        decreases |stream|
      {
        var n := ReceivePiece(lpBuffer, len, total);
        if n < 1 {
          eod := true;
          return -1;
        }
        len := len + n;
        result := AfterPiece(lpBuffer, len, total);
        if result > 0 {
          return;
        }
      }
    }

    /** One call: the next piece of the payload, 0 after the end of the data, or -1 when the stream ends early. */
    method DbReceive(lpBuffer: array<byte>, size: nat) returns (result: int)
      requires Valid() && size - 64 > |bTerm| && lpBuffer.Length > size
      modifies this, lpBuffer
      ensures Valid() && seen + stream == old(seen + stream) && |seen| >= old(|seen|)
      ensures result == -1 || 0 <= result < lpBuffer.Length
      ensures old(eod || endOfStream) ==>
                result == 0 && eod && endOfStream == old(endOfStream) && delivered == old(delivered)
      ensures !old(eod || endOfStream) ==> result == -1 || result > 0
      ensures dataSize == if result == -1 then 0xFFFF_FFFF_FFFF_FFFF else result
      ensures result > 0 ==> !eod && delivered == old(delivered) + lpBuffer[..result]
      ensures result > 0 && !endOfStream ==> |seen| > old(|seen|)
      ensures result == -1 ==> eod && !endOfStream && stream == [] && !Terminated(seen, bTerm) && NothingEarlier(|seen|)
    {
      hide Terminated, NothingEarlier;
      lpBuffer[0] := 0;
      dataSize := 0;
      if eod {
        return 0;
      }
      if endOfStream {
        eod := true;
        return 0;
      }
      var total := size - 64;
      var len := RestoreOverlap(lpBuffer);
      result := ReceiveLoop(lpBuffer, len, total);
      dataSize := if result < 0 then ULONG_MAX else result;
    }

    /** The test of the source sees whether everything received is terminated. */
    lemma TestIsExact(lpBuffer: array<byte>, len: nat)
      requires Collecting(lpBuffer, len) && (delivered != [] ==> len > |bTerm|)
      ensures Terminated(seen, bTerm) <==> len > |bTerm| && lpBuffer[len - |bTerm|..len] == bTerm
    {
      hide Terminated;
      SameEnd(delivered, lpBuffer[..len], bTerm);
      if len > |bTerm| {
        assert lpBuffer[..len][len - |bTerm|..] == lpBuffer[len - |bTerm|..len];
      }
    }

    lemma NothingAtAll()
      requires NothingEarlier(|seen| - 1) && !Terminated(seen, bTerm)
      ensures NothingEarlier(|seen|)
    {
      assert seen[..|seen|] == seen;
    }
  }

  /** The window at the end of the received bytes shows their end. */
  lemma SameEnd(before: seq<byte>, window: seq<byte>, term: seq<byte>)
    ensures |window| > |term| ==> (Terminated(before + window, term) <==> window[|window| - |term|..] == term)
    ensures |before + window| <= |term| ==> !Terminated(before + window, term)
  {
    if |window| > |term| {
      var s := before + window;
      assert s[|s| - |term|..] == window[|window| - |term|..];
    }
  }

  /** A caller that asks until there is no more. Whatever the network does, the data is the stream up to the first end
      of a read at which what was received looked terminated, without the terminator; or there was no such read and
      the whole stream was received. */
  method ReceiveAll(connection: Connection, lpBuffer: array<byte>, size: nat)
    returns (data: seq<byte>, complete: bool, ghost ends: set<nat>)
    requires connection.Valid() && !connection.eod && !connection.endOfStream
    requires connection.seen == [] && connection.delivered == []
    requires size - 64 > |connection.bTerm| && lpBuffer.Length > size
    modifies connection, lpBuffer
    ensures var s, term := old(connection.stream), connection.bTerm;
            && (forall k :: k in ends ==> 0 < k <= |s|)
            && (complete ==> exists k :: k in ends && IsFirstEnd(s, term, ends, k)
                               && data == PayloadOf(s[..k], term)
                               && (connection.bytewise ==> forall j :: 0 < j <= k ==> j in ends))
            && (!complete ==>
                  && (s != [] ==> |s| in ends) && (forall k :: k in ends ==> !Terminated(s[..k], term))
                  && (connection.bytewise ==> forall j :: 0 < j <= |s| ==> j in ends))
  {
    ghost var s, term := connection.stream, connection.bTerm;
    data := [];
    complete := false;
    while !connection.eod
      invariant connection.Valid() && connection.seen + connection.stream == s && connection.bTerm == term
      invariant !connection.eod ==> data == connection.delivered
      invariant connection.eod && complete ==> connection.endOfStream && data == connection.delivered
      invariant connection.eod && !complete ==>
        && connection.stream == [] && !Terminated(connection.seen, term)
        && connection.NothingEarlier(|connection.seen|)
      decreases |connection.stream|, !connection.endOfStream, !connection.eod
    {
      var result := connection.DbReceive(lpBuffer, size);
      if result > 0 {
        data := data + lpBuffer[..result];
      } else {
        complete := result == 0;
      }
    }
    ends := connection.ends;
    ghost var seen := connection.seen;
    assert s[..|seen|] == seen;
    assert forall k :: 0 <= k < |seen| ==> seen[..k] == s[..k];
    assert complete ==> IsFirstEnd(s, term, ends, |seen|);
  }

  /** The first of the reads at whose end what was received looked terminated. */
  ghost predicate IsFirstEnd(s: seq<byte>, term: seq<byte>, ends: set<nat>, k: nat)
    requires forall j :: j in ends ==> j <= |s|
  {
    && k in ends && Terminated(s[..k], term)
    && forall j :: j in ends && j < k ==> !Terminated(s[..j], term)
  }

  /** With one byte a read, the first end of a read that looks terminated is the first prefix that does. */
  lemma FirstEndBytewise(s: seq<byte>, term: seq<byte>, ends: set<nat>, k: nat)
    requires (forall j :: j in ends ==> j <= |s|) && IsFirstEnd(s, term, ends, k)
    requires forall j :: 0 < j <= k ==> j in ends
    ensures NoEarlyTerminator(s[..k], term)
  {
    forall j | 0 <= j < k
      ensures !Terminated(s[..k][..j], term)
    {
      assert s[..k][..j] == s[..j];
    }
  }

  /** A terminated stream without an early terminator has one outcome only. */
  lemma OneOutcome(s: seq<byte>, term: seq<byte>, k: nat)
    requires Terminated(s, term) && NoEarlyTerminator(s, term)
    requires k <= |s| && Terminated(s[..k], term)
    ensures k == |s| && s[..k] == s
  {
  }

  /** The network decides nothing: for a non-empty payload followed by the terminator, every way of cutting the
      stream into reads gives exactly the payload if no proper prefix of the stream looks terminated; and where
      one does, reading byte by byte stops short of the payload. */
  method ReceiveResponse(bytewise: bool, payload: seq<byte>, term: seq<byte>, size: nat)
    returns (data: seq<byte>, complete: bool)
    requires 0 < |term| < 8 && 0 !in term && size - 64 > |term|
    ensures payload != [] && NoEarlyTerminator(payload + term, term) ==> complete && data == payload
    ensures payload != [] && bytewise ==> complete && (data == payload <==> NoEarlyTerminator(payload + term, term))
    ensures payload == [] ==> !complete
  {
    var connection := new Connection(bytewise, term, payload + term);
    var lpBuffer := new byte[size + 1];
    ghost var s := payload + term;
    assert s[|payload|..] == term && s[..|payload|] == payload && s[..|s|] == s;
    ghost var ends;
    data, complete, ends := ReceiveAll(connection, lpBuffer, size);
    if complete {
      ghost var k :| k in ends && IsFirstEnd(s, term, ends, k) && data == PayloadOf(s[..k], term)
                     && (bytewise ==> forall j :: 0 < j <= k ==> j in ends);
      if bytewise {
        FirstEndBytewise(s, term, ends, k);
      }
      if NoEarlyTerminator(s, term) {
        OneOutcome(s, term, k);
      }
      if k < |s| {
        assert |data| < |payload|;
      }
    }
  }
}
