/**
 * The buffered reader of A4/src/compsys_helpers.c over a descriptor that may deliver fewer
 * bytes than asked for, be interrupted, or fail. What callers see depends on the bytes of
 * the stream alone, not on how they were delivered.
 */
module BufferedReader {
  import opened Arithmetic

  type Byte = bv8

  const BUFFER_SIZE: nat := 8192
  const NEWLINE: Byte := 10

  /** What the next call to read() does; a delivery is of at most limit bytes. */
  datatype Event = Interrupted | Failed | Deliver(limit: nat)

  /** Result of a helper: a count, -1 for an error of the descriptor, or a copy of negative length. */
  datatype Result = Count(n: nat) | Error | Fault

  // ----- Sizes

  const INT_MAX := 0x7fff_ffff
  const TWO32 := 0x1_0000_0000

  type Size = n: int | 0 <= n < 0x1_0000_0000_0000_0000

  /** A size converted to int. */
  function IntOf(n: Size): int {
    var low := n % TWO32;
    if low <= INT_MAX then low else low - TWO32
  }

  /** How many of n bytes asked for can be had at all: a request is cut where the conversion gives zero. */
  function Served(n: Size): (k: nat)
    ensures k <= n
  {
    Max(IntOf(n), 0)
  }

  /** What a request for n bytes gets of a stream, unless it faults. */
  function Got(n: Size, size: nat): nat { Min(Served(n), size) }

  predicate Faults(n: Size, size: nat) { IntOf(n) < 0 && size > 0 }

  /** A request gets the next n bytes, or all there are, exactly when n is an int or no more can be had. */
  lemma GotInFull(n: Size, size: nat)
    ensures !Faults(n, size) && Got(n, size) == Min(n, size)
       <==> n < 0x8000_0000 || size == 0 || size <= n % 0x1_0000_0000 < 0x8000_0000
  {}

  /** The lower half of the size counts; it is taken for negative if its highest bit is set. */
  lemma RequestGets(n: Size, size: nat)
    ensures var low := n % 0x1_0000_0000;
      if low < 0x8000_0000 then !Faults(n, size) && Got(n, size) == if low <= size then low else size
      else if size == 0 then !Faults(n, size) && Got(n, size) == 0
      else Faults(n, size)
  {}

  /** Two requests that do not: 2^32 looks like the end of the stream, 2^31 copies a negative length. */
  lemma LargeRequests(size: nat)
    requires size > 0
    ensures Got(0x1_0000_0000, size) == 0 && !Faults(0x1_0000_0000, size) && Faults(0x8000_0000, size)
  {}

  lemma IntOfLess(n: Size, k: nat)
    requires k <= IntOf(n)
    ensures k <= n && IntOf(n - k) == IntOf(n) - k
  {}

  // ----- What a line is

  /** The length of the line at the front of s: through the first newline, at most max bytes. */
  function LineLength(s: seq<Byte>, max: nat): nat {
    if max == 0 || s == [] then 0
    else if s[0] == NEWLINE then 1
    else 1 + LineLength(s[1..], max - 1)
  }

  /** A line stops at the bound, at the end of the stream, or right after its only newline. */
  lemma {:induction false} LineMeaning(s: seq<Byte>, max: nat)
    ensures var n := LineLength(s, max);
      && n <= max && n <= |s|
      && (forall i :: 0 <= i < n - 1 ==> s[i] != 10)
      && (n < max && n < |s| ==> n > 0 && s[n - 1] == 10)
  {
    if max > 0 && s != [] && s[0] != NEWLINE {
      LineMeaning(s[1..], max - 1);
      var n := LineLength(s, max);
      forall i | 0 <= i < n - 1 ensures s[i] != 10 {
        if i > 0 { assert s[i] == s[1..][i - 1]; }
      }
    }
  }

  /** Reading on after n bytes of a line that has no newline yet. */
  lemma {:induction false} LineSoFar(s: seq<Byte>, max: nat, n: nat)
    requires n <= max && n <= |s| && forall i :: 0 <= i < n ==> s[i] != NEWLINE
    ensures LineLength(s, max) == n + LineLength(s[n..], max - n)
  {
    if n > 0 {
      LineSoFar(s[1..], max - 1, n - 1);
      assert s[1..][n - 1..] == s[n..];
    }
  }

  lemma Divided(b: seq<Byte>, from: nat, count: nat, cnt: nat, rest: seq<Byte>)
    requires from + cnt <= |b| && count <= cnt
    ensures b[from..from + cnt] + rest == b[from..from + count] + (b[from + count..from + cnt] + rest)
  {}

  lemma IntOfZero()
    ensures IntOf(0) == 0 && IntOf(1) == 1
  {}

  class Reader {
    var source: seq<Byte>
    var events: seq<Event>
    var cnt: int
    var bufptr: nat
    const buf: array<Byte>

    ghost predicate Valid()
      reads this
    {
      buf.Length == BUFFER_SIZE && (cnt > 0 ==> bufptr + cnt <= BUFFER_SIZE)
    }

    /** The stream still to be delivered: unread bytes of the buffer, then those of the descriptor. */
    ghost function Remaining(): seq<Byte>
      requires Valid()
      reads this, buf
    {
      (if cnt > 0 then buf[bufptr..bufptr + cnt] else []) + source
    }

    ghost predicate Reliable()
      reads `events
    {
      Failed !in events
    }

    constructor (source: seq<Byte>, events: seq<Event>)
      ensures Valid() && fresh(buf) && Remaining() == source && this.events == events
    {
      this.source := source;
      this.events := events;
      cnt := 0;
      bufptr := 0;
      buf := new Byte[BUFFER_SIZE];
    }

    /** read(): consumes one event; a delivery of nothing means the end of the stream. */
    method SystemRead() returns (r: int, interrupted: bool)
      requires Valid() && cnt <= 0
      modifies `source, `events, buf
      ensures |events| <= |old(events)| && (r < 0 ==> |events| < |old(events)|)
      ensures old(Reliable()) ==> Reliable() && (r < 0 ==> interrupted)
      ensures r <= 0 ==> source == old(source) && (r == 0 ==> source == [])
      ensures r > 0 ==> r <= BUFFER_SIZE && old(source) == buf[0..r] + source
    {
      var event := if events == [] then Deliver(BUFFER_SIZE) else events[0];
      events := if events == [] then [] else events[1..];
      interrupted := event.Interrupted?;
      if !event.Deliver? { return -1, interrupted; }
      r := Min(|source|, Min(BUFFER_SIZE, if event.limit == 0 then 1 else event.limit));
      forall i | 0 <= i < r {
        buf[i] := source[i];
      }
      assert buf[0..r] == source[..r];
      source := source[r..];
    }

    /** Calls read() until the buffer holds bytes; zero means the end of the stream. */
    method Refill() returns (r: Result)
      requires Valid()
      modifies this, buf
      ensures Valid() && Remaining() == old(Remaining())
      ensures old(Reliable()) ==> Reliable() && !r.Error?
      ensures !r.Fault? && (r.Count? ==> r.n == cnt && (cnt == 0 ==> Remaining() == []))
    {
      hide Reliable;
      while cnt <= 0
        invariant Valid() && Remaining() == old(Remaining()) && (old(Reliable()) ==> Reliable())
        decreases |events|, cnt <= 0
      {
        var interrupted;
        cnt, interrupted := SystemRead();
        if cnt < 0 {
          if !interrupted { return Error; }
        } else if cnt == 0 {
          return Count(0);
        } else {
          bufptr := 0;
        }
      }
      r := Count(cnt);
    }

    /** Hands out up to n bytes, refilling the buffer first if it is empty. */
    method Read(n: Size) returns (r: Result, bytes: seq<Byte>)
      requires Valid() && n > 0
      modifies this, buf
      ensures Valid() && (old(Reliable()) ==> Reliable() && !r.Error?)
      ensures old(Remaining()) == bytes + Remaining()
      ensures r.Count? ==> r.n == |bytes| && (r.n > 0 ==> r.n <= IntOf(n)) && (r.n < IntOf(n) ==> cnt <= 0)
      ensures r.Count? && r.n == 0 && IntOf(n) != 0 ==> Remaining() == []
      ensures r.Fault? ==> IntOf(n) < 0 && Remaining() != []
      ensures !r.Count? ==> bytes == []
    {
      hide Reliable, IntOf;
      var filled := Refill();
      if filled.Error? || filled.n == 0 { return filled, []; }
      var count := IntOf(n);
      if cnt < IntOf(n) { count := cnt; }
      if count < 0 { return Fault, []; }
      bytes := buf[bufptr..bufptr + count];
      Divided(buf[..], bufptr, count, cnt, source);
      bufptr := bufptr + count;
      cnt := cnt - count;
      r := Count(count);
    }

    /**
     * Reads n bytes, or all there are, if n is an int; GotInFull says what larger requests get. On an error
     * of the descriptor the bytes taken so far are in the user's buffer, but their number is not reported.
     */
    method ReadN(n: Size) returns (r: Result, bytes: seq<Byte>)
      requires Valid()
      modifies this, buf
      ensures Valid() && (old(Reliable()) ==> Reliable() && !r.Error?)
      ensures old(Remaining()) == bytes + Remaining()
      ensures r.Count? ==> r.n == |bytes| == Got(n, |old(Remaining())|) && !Faults(n, |old(Remaining())|)
      ensures r.Fault? ==> Faults(n, |old(Remaining())|) && bytes == []
    {
      hide Remaining, Valid, IntOf;
      var nleft := n;
      bytes := [];
      while nleft > 0
        invariant Valid() && (old(Reliable()) ==> Reliable())
        invariant 0 <= nleft == n - |bytes| && old(Remaining()) == bytes + Remaining()
        invariant IntOf(nleft) == IntOf(n) - |bytes| && (|bytes| <= IntOf(n) || bytes == [])
      {
        var nread, piece := Read(nleft);
        if nread.Error? { return Error, bytes; }
        if nread.Fault? { return Fault, bytes; }
        if nread.n == 0 { break; }
        assert nread.n <= IntOf(nleft);
        IntOfLess(nleft, nread.n);
        bytes := bytes + piece;
        nleft := nleft - nread.n;
      }
      assert |old(Remaining())| == |bytes| + |Remaining()|;
      assert IntOf(0) == 0 by { IntOfZero(); }
      r := Count(n - nleft);
    }

    /** Reads one line into a buffer of maxLen bytes, the last of which is the terminating zero. */
    method ReadLine(maxLen: nat) returns (r: Result, line: seq<Byte>)
      requires Valid() && maxLen >= 1
      modifies this, buf
      ensures Valid() && (old(Reliable()) ==> Reliable() && r.Count?)
      ensures old(Remaining()) == line + Remaining()
      ensures r.Count? ==> r.n == |line| == LineLength(old(Remaining()), maxLen - 1)
    {
      hide LineLength, Remaining, Valid;
      ghost var s := Remaining();
      var n := 1;
      line := [];
      while n < maxLen
        invariant Valid() && (old(Reliable()) ==> Reliable())
        invariant 1 <= n <= maxLen && |line| == n - 1 && s == line + Remaining()
        invariant forall i :: 0 <= i < |line| ==> line[i] != NEWLINE
      {
        ghost var before := Remaining();
        IntOfZero();
        var rc, c := Read(1);
        LineStep(s, line, before, maxLen - 1);
        if rc.Error? { return Error, line; }
        if rc.n == 1 {
          assert before[0] == c[0];
          assert s == (line + c) + Remaining();
          line := line + c;
          if c[0] == NEWLINE { return Count(n), line; }
        } else {
          assert before == [];
          return Count(n - 1), line;
        }
        n := n + 1;
      }
      LineStep(s, line, Remaining(), maxLen - 1);
      r := Count(n - 1);
    }
  }

  /** Where a line that has no newline so far can end. */
  lemma LineStep(s: seq<Byte>, line: seq<Byte>, rest: seq<Byte>, max: nat)
    requires s == line + rest && |line| <= max && forall i :: 0 <= i < |line| ==> line[i] != NEWLINE
    ensures rest == [] || |line| == max ==> LineLength(s, max) == |line|
    ensures rest != [] && |line| < max && rest[0] == NEWLINE ==> LineLength(s, max) == |line| + 1
  {
    LineSoFar(s, max, |line|);
    assert s[|line|..] == rest;
  }

  // ----- Any mixture of requests

  datatype Request = Bytes(n: Size) | Line(maxLen: nat)

  /** No request with a negative copy length, and no line without room for its terminating zero. */
  predicate Allowed(requests: seq<Request>) {
    forall i :: 0 <= i < |requests| ==>
      match requests[i] case Bytes(n) => IntOf(n) >= 0 case Line(maxLen) => maxLen >= 1
  }

  /** How much of stream s one request takes. */
  function Taken(s: seq<Byte>, r: Request): (k: nat)
    ensures k <= |s|
  {
    match r
    case Bytes(n) => Got(n, |s|)
    case Line(maxLen) =>
      var max := if maxLen == 0 then 0 else maxLen - 1;
      LineMeaning(s, max);
      LineLength(s, max)
  }

  /** The pieces a sequence of requests cuts off the front of a stream. */
  function PiecesOf(s: seq<Byte>, requests: seq<Request>): seq<seq<Byte>> {
    if requests == [] then []
    else [s[..Taken(s, requests[0])]] + PiecesOf(s[Taken(s, requests[0])..], requests[1..])
  }

  function Joined(pieces: seq<seq<Byte>>): seq<Byte> {
    if pieces == [] then [] else pieces[0] + Joined(pieces[1..])
  }

  /** The pieces are consecutive from the front: nothing is lost, repeated or reordered. */
  lemma {:induction false} PiecesAreConsecutive(s: seq<Byte>, requests: seq<Request>)
    ensures Joined(PiecesOf(s, requests)) <= s
  {
    if requests != [] {
      var k := Taken(s, requests[0]);
      PiecesAreConsecutive(s[k..], requests[1..]);
      assert PiecesOf(s, requests)[1..] == PiecesOf(s[k..], requests[1..]);
      assert s == s[..k] + s[k..];
    }
  }

  /** One request of either kind, when the descriptor does not fail. */
  method ServeOne(reader: Reader, request: Request) returns (piece: seq<Byte>)
    requires reader.Valid() && reader.Reliable() && Allowed([request])
    modifies reader, reader.buf
    ensures reader.Valid() && reader.Reliable()
    ensures var s := old(reader.Remaining()); var k := Taken(s, request);
      piece == s[..k] && reader.Remaining() == s[k..]
  {
    hide Reader.Valid, Reader.Remaining, Reader.Reliable, LineLength, IntOf;
    assert [request][0] == request;
    var r;
    match request {
      case Bytes(n) => r, piece := reader.ReadN(n);
      case Line(maxLen) => r, piece := reader.ReadLine(maxLen);
    }
  }

  /** Serving requests in turn: the pieces depend on the stream alone, not on how it was delivered. */
  method Session(reader: Reader, requests: seq<Request>) returns (pieces: seq<seq<Byte>>)
    requires reader.Valid() && reader.Reliable() && Allowed(requests)
    modifies reader, reader.buf
    ensures reader.Valid() && pieces == PiecesOf(old(reader.Remaining()), requests)
    ensures old(reader.Remaining()) == Joined(pieces) + reader.Remaining()
    decreases |requests|
  {
    hide Reader.Valid, Reader.Remaining, Reader.Reliable, Taken, PiecesOf, Joined;
    ghost var s := reader.Remaining();
    if requests == [] {
      NoPieces(s);
      return [];
    }
    var piece := ServeOne(reader, requests[0]);
    var more := Session(reader, requests[1..]);
    MorePieces(s, requests, piece, more, reader.Remaining());
    pieces := [piece] + more;
  }

  lemma NoPieces(s: seq<Byte>)
    ensures PiecesOf(s, []) == [] && Joined([]) + s == s
  {}

  lemma MorePieces(s: seq<Byte>, requests: seq<Request>, piece: seq<Byte>, more: seq<seq<Byte>>, rest: seq<Byte>)
    requires requests != [] && piece == s[..Taken(s, requests[0])]
    requires s[Taken(s, requests[0])..] == Joined(more) + rest
    requires more == PiecesOf(s[Taken(s, requests[0])..], requests[1..])
    ensures [piece] + more == PiecesOf(s, requests) && s == Joined([piece] + more) + rest
  {
    hide Taken;
    assert ([piece] + more)[1..] == more;
    assert s == s[..Taken(s, requests[0])] + s[Taken(s, requests[0])..];
  }
}
