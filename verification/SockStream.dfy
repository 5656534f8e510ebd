/** lib/SockStream.cpp: the buffers between a socket and the standard streams. The get area is a
    stretch of `inBuf` behind a putback region, the put area the front of `outBuf`; both are
    arrays, and the pointers of the stream buffer are indices into them. */
module SockStreams {
  import opened Wrappers

  /** What the loops of `overflow` and `sync` end with. `OutOfBounds` is the call of `send` whose
      length `n - nn` has wrapped around below zero. */
  datatype Outcome = Done | Refused | OutOfBounds

  function Min(a: nat, b: nat): nat { if a < b then a else b }

  function Max(a: nat, b: nat): nat { if a < b then b else a }

  /** What `send` answers to a request of `len` bytes: the script of answers is arbitrary, an
      answer is never longer than the request, and nothing is sent without a positive answer. */
  function Answer(len: nat, answers: seq<int>): (taken: nat)
    ensures taken <= len
    ensures taken > 0 <==> len > 0 && answers != [] && answers[0] > 0
  {
    if answers == [] || answers[0] <= 0 then 0 else Min(len, answers[0])
  }

  function Later(answers: seq<int>): seq<int> { if answers == [] then [] else answers[1..] }

  /** The send loop: `n` bytes are left by its own count, `nn` have gone out, and each request is
      for the `n - nn` bytes from position `nn`. The number is what has gone out in the end. */
  function SendLoop(n: nat, nn: nat, answers: seq<int>): (r: (Outcome, nat))
    ensures nn <= r.1 <= n + nn
    decreases n
  {
    if n == 0 then (Done, nn)
    else if n < nn then (OutOfBounds, nn)
    else if Answer(n - nn, answers) == 0 then (Refused, nn)
    else SendLoop(n - Answer(n - nn, answers), nn + Answer(n - nn, answers), Later(answers))
  }

  /** Once a request has been taken in part, the loop never ends well: its requests shrink twice as
      fast as what is left. */
  lemma {:induction false} PartialNeverDone(n: nat, nn: nat, answers: seq<int>)
    requires 0 < n && 0 < nn
    ensures var (outcome, sent) := SendLoop(n, nn, answers);
            outcome != Done && nn <= sent < n + nn && (outcome == OutOfBounds <==> 2 * sent > n + nn)
    decreases n
  {
    if nn <= n {
      var taken := Answer(n - nn, answers);
      if 0 < taken {
        PartialNeverDone(n - taken, nn + taken, Later(answers));
      }
    }
  }

  /** The loop succeeds exactly when the socket takes the whole buffer at the first call; otherwise
      it stops with a proper prefix gone, and it has asked for bytes outside the buffer exactly
      when more than half of it was gone. */
  lemma SendsAllOrNever(size: nat, answers: seq<int>)
    ensures SendLoop(size, 0, answers).0 == Done <==> size == 0 || (answers != [] && answers[0] >= size)
    ensures SendLoop(size, 0, answers).0 == Done ==> SendLoop(size, 0, answers).1 == size
    ensures SendLoop(size, 0, answers).0 != Done ==> SendLoop(size, 0, answers).1 < size
    ensures SendLoop(size, 0, answers).0 == OutOfBounds <==>
            SendLoop(size, 0, answers).0 != Done && 2 * SendLoop(size, 0, answers).1 > size
  {
    if size == 0 {
      return;
    }
    var taken := Answer(size, answers);
    if 0 < taken < size {
      PartialNeverDone(size - taken, taken, Later(answers));
    }
  }

  /** Of three bytes two go out, and the next request is for one byte less than none. */
  lemma SendLoopWitness()
    ensures SendLoop(3, 0, [2]) == (OutOfBounds, 2)
  {
    assert Answer(3, [2]) == 2;
  }

  /** Sockets that take a request whole or fail. */
  predicate WholeOrNothing(answers: seq<int>, size: nat)
  {
    forall i :: 0 <= i < |answers| ==> answers[i] <= 0 || answers[i] >= size
  }

  predicate Ends(rest: seq<int>, all: seq<int>)
  {
    |rest| <= |all| && rest == all[|all| - |rest|..]
  }

  /** On such a socket nothing is ever sent in part. */
  lemma WholeOrNothingSends(n: nat, size: nat, answers: seq<int>)
    requires n <= size && WholeOrNothing(answers, size)
    ensures SendLoop(n, 0, answers) in {(Done, n), (Refused, 0)}
  {
  }

  lemma EndsWhole(rest: seq<int>, all: seq<int>, size: nat)
    requires Ends(rest, all) && WholeOrNothing(all, size)
    ensures WholeOrNothing(rest, size)
  {
  }

  lemma EndsItself(all: seq<int>)
    ensures Ends(all, all)
  {
  }

  /** After a part has gone out, the put area repeats it. */
  lemma SameLength(sent: string, part: string, area: string, written: string)
    requires sent + area == written
    ensures (sent + part) + area == written <==> sent + part == sent
  {
    assert |(sent + part) + area| == |written| + |part|;
    if part == "" {
      assert sent + part == sent;
    }
  }

  /** The bytes that arrive before the first read that gives nothing. */
  function Arriving(pieces: seq<string>): string
  {
    if pieces == [] || pieces[0] == "" then "" else pieces[0] + Arriving(pieces[1..])
  }

  /** What is left of the arrivals after a read into `room` bytes. */
  function AfterRead(pieces: seq<string>, room: nat): seq<string>
  {
    if pieces == [] then []
    else if |pieces[0]| <= room then pieces[1..]
    else [pieces[0][room..]] + pieces[1..]
  }

  function ReadPiece(pieces: seq<string>, room: nat): string
  {
    if pieces == [] then "" else pieces[0][..Min(room, |pieces[0]|)]
  }

  /** A read takes the front of what arrives, however the bytes are cut into packets. */
  lemma ReadTakesFront(pieces: seq<string>, room: nat)
    requires 0 < room
    ensures ReadPiece(pieces, room) != "" ==>
              Arriving(pieces) == ReadPiece(pieces, room) + Arriving(AfterRead(pieces, room))
    ensures ReadPiece(pieces, room) == "" ==> Arriving(pieces) == ""
  {
    if pieces != [] && pieces[0] != "" && room < |pieces[0]| {
      var rest := AfterRead(pieces, room);
      assert rest[0] == pieces[0][room..] && rest[1..] == pieces[1..];
      var a, b, c := pieces[0][..room], pieces[0][room..], Arriving(pieces[1..]);
      assert pieces[0] == a + b;
      assert (a + b) + c == a + (b + c);
    }
  }

  /** The last `k` bytes of the area are the last that arrived. */
  predicate Right(area: string, all: string, k: nat)
  {
    k <= |area| && k <= |all| && area[|area| - k..] == all[|all| - k..]
  }

  /** The bytes that arrived are those delivered and those ahead in the get area; `good` bytes at
      the end of the area, putback region included, are right. */
  predicate InStep(received: string, delivered: string, area: string, ahead: string, untouched: bool, room: nat,
                   good: nat)
  {
    && received == delivered + ahead && |ahead| <= good && Right(area, received, good)
    && (if untouched then area == "" && received == "" else Min(room, |received|) <= |area|)
  }

  /** The last `room` bytes of the memory that ends with the area. */
  function Kept(before: string, area: string, room: nat): (kept: string)
    requires room <= |before|
    ensures |kept| == room
  {
    (before + area)[|before| + |area| - room..]
  }

  /** Moving the end of the area in front of the next bytes keeps what was right and fits. */
  lemma KeptRight(before: string, area: string, all: string, room: nat, bytes: string, good: nat)
    requires room <= |before| && Right(area, all, good)
    ensures Right(Kept(before, area, room) + bytes, all + bytes, |bytes| + Min(room, good))
  {
    hide Kept, Right;
    var kept, k := Kept(before, area, room), Min(room, good);
    RightFits(area, all, good);
    KeptEnd(before, area, room, k);
    RightShorter(area, all, good, k);
    RightLonger(area, all, kept, k, bytes);
  }

  lemma RightFits(area: string, all: string, good: nat)
    requires Right(area, all, good)
    ensures good <= |area| && good <= |all|
  {
  }

  lemma KeptEnd(before: string, area: string, room: nat, k: nat)
    requires room <= |before| && k <= room && k <= |area|
    ensures Kept(before, area, room)[room - k..] == area[|area| - k..]
  {
  }

  lemma RightLonger(area: string, all: string, kept: string, k: nat, bytes: string)
    requires Right(area, all, k) && k <= |kept| && kept[|kept| - k..] == area[|area| - k..]
    ensures Right(kept + bytes, all + bytes, |bytes| + k)
  {
    var n := |bytes| + k;
    assert (kept + bytes)[|kept + bytes| - n..] == kept[|kept| - k..] + bytes;
    assert (all + bytes)[|all + bytes| - n..] == all[|all| - k..] + bytes;
  }

  lemma RightShorter(area: string, all: string, good: nat, k: nat)
    requires Right(area, all, good) && k <= good
    ensures Right(area, all, k)
  {
    assert area[|area| - k..] == area[|area| - good..][good - k..];
    assert all[|all| - k..] == all[|all| - good..][good - k..];
  }

  /** The area after a read that gave nothing: its end has been moved to the front all the same. */
  function Missed(before: string, area: string, room: nat): (after: string)
    requires room <= |before|
    ensures |after| == |area|
  {
    var kept := Kept(before, area, room);
    if |area| >= room then kept + area[room..] else kept[..|area|]
  }

  /** How many bytes are still right then: those behind the putback region. */
  function StillRight(size: nat, room: nat, good: nat): (k: nat)
    ensures k <= good
  {
    if size == room then good else Min(good, if size > room then size - room else 0)
  }

  lemma MissedRight(before: string, area: string, all: string, room: nat, good: nat)
    requires room <= |before| && Right(area, all, good)
    ensures Right(Missed(before, area, room), all, StillRight(|area|, room, good))
  {
    var after, k := Missed(before, area, room), StillRight(|area|, room, good);
    RightShorter(area, all, good, k);
    if |area| == room {
      assert Kept(before, area, room) == area && after == area;
    } else {
      assert after[|area| - k..] == area[|area| - k..];
    }
  }

  predicate Distinct(s: string) { forall i, j :: 0 <= i < j < |s| ==> s[i] != s[j] }

  /** The positions of the putback region, and no others, get another byte, the one that the move has
      put there; unless the area has just the size of the region. The byte is right exactly when the
      two happen to be equal, so with distinct bytes it never is. */
  lemma MissedFrom(before: string, area: string, room: nat, j: nat)
    requires room <= |before| && j < |area|
    ensures Missed(before, area, room)[j]
            == if j >= room then area[j] else (before + area)[|before| + |area| - room + j]
    ensures |area| == room ==> Missed(before, area, room)[j] == area[j]
    ensures j < room && |area| != room && Distinct(before + area) ==> Missed(before, area, room)[j] != area[j]
  {
    var all := before + area;
    assert all[|before| + j] == area[j];
    if j < room {
      assert Missed(before, area, room)[j] == all[|all| - room + j];
    }
  }

  /** With two bytes of putback and "abc" read, a read that gives nothing leaves "bcc": the second
      byte put back is wrong. */
  lemma MissedWitness(before: string)
    requires |before| >= 2
    ensures Missed(before, "abc", 2) == "bcc"
  {
    var all := before + "abc";
    assert all[|all| - 2..] == "bc" && "abc"[2..] == "c";
  }

  lemma ReadFits(pieces: seq<string>, room: nat)
    ensures |ReadPiece(pieces, room)| <= room
  {
  }

  /** The first read makes the whole area, and all of it is right. */
  lemma FirstFill(received: string, delivered: string, area: string, room: nat, good: nat, bytes: string)
    requires InStep(received, delivered, area, "", true, room, good)
    ensures good == 0 && InStep(received + bytes, delivered, bytes, bytes, false, room, |bytes|)
  {
    assert received + bytes == bytes && delivered + bytes == bytes;
  }

  lemma UsedUp(received: string, delivered: string, area: string, room: nat, good: nat)
    requires InStep(received, delivered, area, "", false, room, good)
    ensures received == delivered && Right(area, received, good) && Min(room, |received|) <= |area|
  {
    hide Right;
  }

  /** A later read keeps the two ends in step; without a miss the area is right as far as it can be. */
  lemma Refilled(received: string, delivered: string, area: string, room: nat, good: nat, before: string, bytes: string)
    requires InStep(received, delivered, area, "", false, room, good) && room <= |before|
    ensures InStep(received + bytes, delivered, Kept(before, area, room) + bytes, bytes, false, room,
                   |bytes| + Min(room, good))
  {
    hide InStep, Right, Kept;
    UsedUp(received, delivered, area, room, good);
    KeptRight(before, area, received, room, bytes, good);
    NextArea(received, Kept(before, area, room), bytes, |bytes| + Min(room, good));
  }

  lemma NextArea(received: string, kept: string, bytes: string, good: nat)
    requires |bytes| <= good && Right(kept + bytes, received + bytes, good)
    ensures InStep(received + bytes, received, kept + bytes, bytes, false, |kept|, good)
  {
    hide Right;
  }

  lemma RefilledWhole(received: string, delivered: string, area: string, room: nat, good: nat)
    requires InStep(received, delivered, area, "", false, room, good)
    requires good == Min(|area|, |received|)
    ensures Min(room, good) == Min(room, |received|)
  {
    hide Right;
  }

  lemma Starved(received: string, delivered: string, area: string, untouched: bool, room: nat, good: nat, before: string)
    requires InStep(received, delivered, area, "", untouched, room, good) && room <= |before|
    ensures var after := if untouched then area else Missed(before, area, room);
            var k := if untouched then good else StillRight(|area|, room, good);
            InStep(received + "", delivered, after, "", untouched, room, k)
  {
    assert received + "" == received;
    if !untouched {
      MissedRight(before, area, received, room, good);
    }
  }

  /** Moving the get pointer over a byte and back. */
  lemma Bumped(received: string, delivered: string, area: string, c: char, rest: string, untouched: bool, room: nat,
               good: nat)
    requires InStep(received, delivered, area, [c] + rest, untouched, room, good)
    ensures InStep(received, delivered + [c], area, rest, untouched, room, good)
  {
    Assoc(delivered, [c], rest);
  }

  /** The byte in front of the get pointer: putting it back keeps the step if and only if it is the
      byte delivered last, and within the right bytes it is. */
  lemma Unbumped(received: string, delivered: string, area: string, ahead: string, untouched: bool, room: nat, good: nat)
    requires InStep(received, delivered, area, ahead, untouched, room, good)
    requires delivered != "" && |ahead| < |area| && ahead == area[|area| - |ahead|..]
    ensures var c, last, less := area[|area| - |ahead| - 1], delivered[|delivered| - 1], delivered[..|delivered| - 1];
            && delivered == less + [last] && (|ahead| < good ==> c == last)
            && (c == last ==> InStep(received, less, area, [c] + ahead, untouched, room, Max(good, |ahead| + 1)))
            && (c != last ==> received != less + ([c] + ahead))
  {
    var k := |ahead| + 1;
    var c, last, less := area[|area| - k], delivered[|delivered| - 1], delivered[..|delivered| - 1];
    assert delivered == less + [last];
    Assoc(less, [last], ahead);
    assert received[|received| - k] == last && received[|received| - k..] == [last] + ahead;
    assert area[|area| - k..] == [c] + ahead;
    if k <= good {
      RightShorter(area, received, good, k);
      assert area[|area| - k..][0] == c;
    }
    assert (less + ([c] + ahead))[|less|] == c && received[|less|] == last;
  }

  lemma FirstOfSlice(a: array<char>, i: nat, j: nat)
    requires i < j <= a.Length
    ensures a[i..j] == [a[i]] + a[i + 1..j]
  {
  }

  /** The socket: what its peer sends, the answers of `send`, and the history of both directions. */
  class Socket {
    var pieces: seq<string>
    var answers: seq<int>
    ghost var received: string
    ghost var sent: string

    constructor (pieces: seq<string>, answers: seq<int>)
      ensures this.pieces == pieces && this.answers == answers && received == "" && sent == ""
    {
      this.pieces, this.answers := pieces, answers;
      received, sent := "", "";
    }

    method Read(room: nat) returns (bytes: string)
      modifies this
      ensures bytes == ReadPiece(old(pieces), room) && pieces == AfterRead(old(pieces), room)
      ensures received == old(received) + bytes && sent == old(sent) && answers == old(answers)
    {
      bytes := "";
      if pieces != [] {
        var first := pieces[0];
        if |first| <= room {
          bytes, pieces := first, pieces[1..];
        } else {
          bytes, pieces := first[..room], [first[room..]] + pieces[1..];
        }
      }
      received := received + bytes;
    }

    method Send(bytes: string) returns (taken: nat)
      modifies this
      ensures taken == Answer(|bytes|, old(answers)) && answers == Later(old(answers))
      ensures sent == old(sent) + bytes[..taken] && received == old(received) && pieces == old(pieces)
    {
      taken := 0;
      if answers != [] {
        if answers[0] > 0 {
          taken := if |bytes| < answers[0] then |bytes| else answers[0];
        }
        answers := answers[1..];
      }
      sent := sent + bytes[..taken];
    }
  }

  class SockStream {
    const inBuf: array<char>
    const outBuf: array<char>
    const inBufsize: nat
    const putbackSize: nat
    const sock: Socket
    /** The memory in front of `inBuf`: any bytes at all. */
    const before: string
    var eback: nat
    var gptr: nat
    var egptr: nat
    var pptr: nat
    /** The bytes handed to the reader and not put back. */
    ghost var delivered: string
    /** The bytes accepted from the writer. */
    ghost var written: string
    /** Set once a read has given nothing. */
    ghost var starved: bool
    /** How many bytes at the end of the area are the last that arrived. */
    ghost var good: nat

    ghost predicate Shaped()
      reads this
    {
      && 0 < inBufsize && 0 < putbackSize <= |before| && 0 < outBuf.Length
      && inBuf.Length == inBufsize + putbackSize && inBuf != outBuf
      && eback <= gptr <= egptr <= inBuf.Length && pptr <= outBuf.Length
      && (eback == 0 || eback == inBuf.Length)
    }

    ghost function Area(): string
      requires Shaped()
      reads this, inBuf
    {
      inBuf[eback..egptr]
    }

    /** The reading side refines one sequence: what was handed out and the get area are what
        arrived, and the whole area, putback region included, is the end of what arrived. */
    ghost predicate Reading()
      requires Shaped()
      reads this, inBuf, sock
    {
      && InStep(sock.received, delivered, Area(), inBuf[gptr..egptr], eback != 0, putbackSize, good)
      && (!starved ==> good == Min(|Area()|, |sock.received|))
    }

    /** What a reader of the stream still gets: the get area and what arrives after it. */
    ghost function Pending(): string
      requires Shaped()
      reads this, inBuf, sock
    {
      inBuf[gptr..egptr] + Arriving(sock.pieces)
    }

    /** The writing side refines one sequence: what was sent and the put area are what was
        written. */
    ghost predicate Writing()
      requires Shaped()
      reads this, outBuf, sock
    {
      sock.sent + outBuf[..pptr] == written
    }

    ghost predicate Valid()
      reads this, inBuf, outBuf, sock
    {
      Shaped() && Reading() && Writing()
    }

    lemma WritingIs()
      requires Shaped()
      ensures Writing() <==> sock.sent + outBuf[..pptr] == written
    {
    }

    constructor (sock: Socket, inBufsize: nat, outBufsize: nat, putbackSize: nat, before: string)
      requires 0 < inBufsize && 0 < outBufsize && 0 < putbackSize <= |before|
      requires sock.received == "" && sock.sent == ""
      ensures Valid() && this.sock == sock && fresh(inBuf) && fresh(outBuf)
      ensures delivered == "" && written == "" && !starved
      ensures this.putbackSize == putbackSize && this.inBufsize == inBufsize && outBuf.Length == outBufsize
    {
      this.sock, this.inBufsize, this.putbackSize, this.before := sock, inBufsize, putbackSize, before;
      inBuf := new char[inBufsize + putbackSize];
      eback, gptr, egptr := inBufsize + putbackSize, inBufsize + putbackSize, inBufsize + putbackSize;
      outBuf := new char[outBufsize](i => '\0');
      pptr := 0;
      delivered, written, starved, good := "", "", false, 0;
    }

    /** The `memmove` of `underflow`. When the area is shorter than the putback region the source
        starts in front of the buffer. */
    method MoveTail()
      requires Shaped() && eback == 0
      modifies inBuf
      ensures inBuf[..putbackSize] == Kept(before, old(inBuf[..egptr]), putbackSize)
      ensures inBuf[putbackSize..] == old(inBuf[putbackSize..])
    {
      ghost var was := inBuf[..egptr];
      if putbackSize <= egptr {
        forall j | 0 <= j < putbackSize {
          inBuf[j] := inBuf[egptr - putbackSize + j];
        }
      } else {
        forall j | 0 <= j < putbackSize {
          inBuf[j] :=
            if j < putbackSize - egptr then before[|before| + egptr - putbackSize + j]
            else inBuf[egptr - putbackSize + j];
        }
      }
      assert inBuf[..putbackSize] == Kept(before, was, putbackSize);
    }

    /** What the `memmove` has made of the area. */
    lemma MovedArea(area: string)
      requires Shaped() && gptr == egptr
      requires eback == 0 ==> |area| == egptr && inBuf[..putbackSize] == Kept(before, area, putbackSize)
      requires eback == 0 ==> forall j :: putbackSize <= j < egptr ==> inBuf[j] == area[j]
      requires eback != 0 ==> area == Area()
      ensures Area() == if eback == 0 then Missed(before, area, putbackSize) else area
    {
      hide Kept;
      if eback == 0 {
        ghost var after := Missed(before, area, putbackSize);
        assert forall j :: 0 <= j < putbackSize && j < egptr ==> inBuf[j] == inBuf[..putbackSize][j];
        assert forall j :: 0 <= j < egptr ==> inBuf[j] == after[j];
      }
    }

    /** What `read` does to the buffer, and the new area: the bytes in front of `start` and the bytes
        read. */
    method Store(start: nat, bytes: string)
      requires Shaped() && start + |bytes| <= inBuf.Length
      modifies this`eback, this`gptr, this`egptr, inBuf
      ensures Shaped() && eback == 0 && gptr == start
      ensures Area() == old(inBuf[..start]) + bytes && inBuf[gptr..egptr] == bytes
    {
      ghost var front := inBuf[..start];
      forall j | 0 <= j < |bytes| {
        inBuf[start + j] := bytes[j];
      }
      eback, gptr, egptr := 0, start, start + |bytes|;
      assert inBuf[..start] == front;
      assert inBuf[..egptr] == inBuf[..start] + inBuf[start..egptr];
    }

    /** `underflow` on a used-up get area: the putback region is filled from its end, and the next
        bytes of the socket follow. */
    method Refill() returns (bytes: string)
      requires Valid() && gptr == egptr
      modifies this, inBuf, sock
      ensures Valid() && delivered == old(delivered) && written == old(written) && pptr == old(pptr)
      ensures sock.sent == old(sock.sent) && sock.answers == old(sock.answers)
      ensures bytes == ReadPiece(old(sock.pieces), inBufsize)
      ensures sock.received == old(sock.received) + bytes && sock.pieces == AfterRead(old(sock.pieces), inBufsize)
      ensures inBuf[gptr..egptr] == bytes && starved == (old(starved) || bytes == "")
      ensures bytes != "" ==>
                && eback == 0 && gptr == (if old(eback) == 0 then putbackSize else 0)
                && good == |bytes| + Min(putbackSize, old(good))
      ensures bytes == "" ==>
                && eback == old(eback) && egptr == old(egptr)
                && Area() == (if old(eback) == 0 then Missed(before, old(Area()), putbackSize) else old(Area()))
                && good == (if old(eback) == 0 then StillRight(|old(Area())|, putbackSize, old(good)) else old(good))
    {
      hide InStep, Kept, ReadPiece, AfterRead, Arriving, Right, Missed, StillRight, Writing;
      ghost var area, received := Area(), sock.received;
      WritingIs();
      assert inBuf[gptr..egptr] == "";
      var start := 0;
      if eback == 0 {
        assert area == inBuf[..egptr];
        MoveTail();
        start := putbackSize;
      }
      bytes := sock.Read(inBufsize);
      if bytes == "" {
        MovedArea(area);
        Starved(received, delivered, area, eback != 0, putbackSize, good, before);
        starved, good := true, if eback == 0 then StillRight(|area|, putbackSize, good) else good;
        assert inBuf[gptr..egptr] == "";
        WritingIs();
        return;
      }
      if eback == 0 {
        Refilled(received, delivered, area, putbackSize, good, before, bytes);
        if !starved {
          RefilledWhole(received, delivered, area, putbackSize, good);
        }
      } else {
        FirstFill(received, delivered, area, putbackSize, good, bytes);
      }
      good := |bytes| + Min(putbackSize, good);
      ReadFits(old(sock.pieces), inBufsize);
      assert start == 0 ==> inBuf[..start] + bytes == bytes;
      Store(start, bytes);
      WritingIs();
    }

    /** `underflow`: peeks at the next byte, refilling the get area when it is used up. */
    method Underflow() returns (next: Option<char>)
      requires Valid()
      modifies this, inBuf, sock
      ensures Valid() && delivered == old(delivered) && written == old(written) && pptr == old(pptr)
      ensures sock.sent == old(sock.sent) && sock.answers == old(sock.answers)
      ensures next == None <==> old(Pending()) == ""
      ensures next.Some? ==> gptr < egptr && next.value == inBuf[gptr] && starved == old(starved)
      ensures if next == None then starved else Pending() == old(Pending())
      ensures old(gptr < egptr) ==> gptr == old(gptr) && eback == old(eback)
      ensures old(gptr == egptr && eback == 0) && next.Some? ==> eback == 0 && gptr == putbackSize
    {
      hide InStep, ReadPiece, AfterRead, Arriving;
      if gptr < egptr {
        return Some(inBuf[gptr]);
      }
      ReadTakesFront(sock.pieces, inBufsize);
      ghost var arriving := Arriving(sock.pieces);
      assert Pending() == arriving;
      var bytes := Refill();
      assert Pending() == bytes + Arriving(sock.pieces);
      if bytes == "" {
        return None;
      }
      return Some(bytes[0]);
    }

    /** Taking the next byte: `sbumpc` of the standard library over `underflow`. */
    method Bump() returns (next: Option<char>)
      requires Valid()
      modifies this, inBuf, sock
      ensures Valid() && written == old(written) && sock.sent == old(sock.sent)
      ensures next == None <==> old(Pending()) == ""
      ensures next == None ==> delivered == old(delivered) && starved
      ensures next.Some? ==>
                && old(Pending()) == [next.value] + Pending()
                && delivered == old(delivered) + [next.value] && starved == old(starved)
      ensures next.Some? ==> eback < gptr
      ensures next.Some? && old(gptr == egptr && eback == 0) ==> gptr - eback == putbackSize + 1
    {
      hide InStep, Arriving;
      next := Underflow();
      if next.Some? {
        ghost var rest := inBuf[gptr + 1..egptr];
        FirstOfSlice(inBuf, gptr, egptr);
        Assoc([next.value], rest, Arriving(sock.pieces));
        Bumped(sock.received, delivered, Area(), next.value, rest, eback != 0, putbackSize, good);
        delivered := delivered + [next.value];
        gptr := gptr + 1;
      }
    }

    /** Putting the last byte back: `sungetc` of the standard library, which only moves the pointer.
        The byte is the one delivered last as long as the pointer stays within the right bytes of the
        area, and the stream is as before its delivery if and only if it is. With nothing delivered
        the pointer still moves when the area holds more than ever arrived. */
    method Unget() returns (back: Option<char>)
      requires Valid()
      modifies this
      ensures back == None <==> old(gptr == eback)
      ensures back == None ==> Valid() && delivered == old(delivered) && Pending() == old(Pending())
      ensures back.Some? && old(delivered) != "" ==>
                var last := old(delivered)[|old(delivered)| - 1];
                && delivered + [last] == old(delivered) && (Valid() <==> back.value == last)
                && (old(egptr - gptr < good || !starved) ==> back.value == last)
                && Shaped() && Pending() == [back.value] + old(Pending())
      ensures old(!starved && delivered == "" && eback == 0) ==>
                (back == None <==> |old(Area())| <= |sock.received|)
      ensures written == old(written)
    {
      hide Arriving, Right;
      if gptr == eback {
        return None;
      }
      ghost var rest, area := inBuf[gptr..egptr], Area();
      back := Some(inBuf[gptr - 1]);
      FirstOfSlice(inBuf, gptr - 1, egptr);
      if delivered != "" {
        assert rest == area[|area| - |rest|..];
        Unbumped(sock.received, delivered, area, rest, eback != 0, putbackSize, good);
        Assoc([back.value], rest, Arriving(sock.pieces));
        delivered, good := delivered[..|delivered| - 1], Max(good, |rest| + 1);
      }
      gptr := gptr - 1;
    }

    /** Reading to the end delivers exactly what the socket gives, for every size of the buffer and
        every cut into packets. */
    method Drain() returns (bytes: string)
      requires Valid()
      modifies this, inBuf, sock
      ensures Valid() && bytes == old(Pending()) && delivered == old(delivered) + bytes
      ensures written == old(written) && sock.sent == old(sock.sent)
    {
      hide Reading, Writing, Pending;
      bytes := "";
      ghost var all := Pending();
      ghost var was := delivered;
      while true
        invariant Valid() && bytes + Pending() == all && delivered == was + bytes
        invariant written == old(written) && sock.sent == old(sock.sent)
        decreases |Pending()|
      {
        ghost var rest := Pending();
        var next := Bump();
        if next == None {
          return;
        }
        Assoc(bytes, [next.value], Pending());
        Assoc(was, bytes, [next.value]);
        bytes := bytes + [next.value];
      }
    }

    /** The loop of `overflow` and of `sync` over the first `size` bytes of the put area. */
    method SendBuffer(size: nat) returns (outcome: Outcome, sent: nat)
      requires Shaped() && size <= outBuf.Length
      modifies sock
      ensures (outcome, sent) == SendLoop(size, 0, old(sock.answers))
      ensures sent <= size && sock.sent == old(sock.sent) + outBuf[..sent]
      ensures sock.received == old(sock.received) && sock.pieces == old(sock.pieces)
      ensures Ends(sock.answers, old(sock.answers))
    {
      var n: nat := size;
      sent := 0;
      while n > 0
        invariant n == size - sent && sent <= size
        invariant SendLoop(n, sent, sock.answers) == SendLoop(size, 0, old(sock.answers))
        invariant sock.sent == old(sock.sent) + outBuf[..sent]
        invariant sock.received == old(sock.received) && sock.pieces == old(sock.pieces)
        invariant Ends(sock.answers, old(sock.answers))
      {
        if n < sent {
          return OutOfBounds, sent;
        }
        ghost var gone := outBuf[..sent];
        var taken := sock.Send(outBuf[sent..n]);
        if taken == 0 {
          assert gone + [] == gone;
          return Refused, sent;
        }
        assert outBuf[..sent + taken] == gone + outBuf[sent..n][..taken];
        Assoc(old(sock.sent), gone, outBuf[sent..n][..taken]);
        n, sent := n - taken, sent + taken;
      }
      outcome := Done;
    }

    /** `overflow`: the byte goes into the put area, after the area when that is full. A refused
        byte is not written; what is sent and the put area are then still what was written exactly
        when no part of the area went out. */
    method Overflow(ch: Option<char>) returns (outcome: Outcome)
      requires Valid()
      modifies this, outBuf, sock
      ensures ch == None ==> outcome == Refused && written == old(written) && Valid()
      ensures ch.Some? && old(pptr) < outBuf.Length ==> outcome == Done && sock.sent == old(sock.sent)
      ensures ch.Some? && old(pptr) == outBuf.Length ==>
                && outcome == SendLoop(outBuf.Length, 0, old(sock.answers)).0
                && (outcome == Done ==> sock.sent == old(written))
                && (outcome != Done ==>
                      sock.sent == old(sock.sent + outBuf[..SendLoop(outBuf.Length, 0, sock.answers).1]))
                && (outcome != Done ==> (Valid() <==> sock.sent == old(sock.sent)))
      ensures outcome == Done ==> Valid() && ch.Some? && written == old(written) + [ch.value]
      ensures outcome != Done ==> written == old(written)
      ensures delivered == old(delivered) && Shaped() && Reading()
      ensures inBuf[gptr..egptr] == old(inBuf[gptr..egptr]) && sock.pieces == old(sock.pieces)
      ensures Ends(sock.answers, old(sock.answers))
    {
      hide SendLoop, InStep, Ends, Answer;
      EndsItself(sock.answers);
      if ch == None {
        return Refused;
      }
      if pptr >= outBuf.Length {
        SendsAllOrNever(outBuf.Length, sock.answers);
        var sent: nat;
        outcome, sent := SendBuffer(outBuf.Length);
        if outcome != Done {
          SameLength(old(sock.sent), outBuf[..sent], outBuf[..pptr], written);
          return;
        }
        pptr := 0;
      }
      outBuf[pptr] := ch.value;
      pptr := pptr + 1;
      written := written + [ch.value];
      outcome := Done;
    }

    /** `sync`: sends the put area. On success everything written has gone out; on failure nothing
        leaves the put area, also when a part of it has been sent. */
    method Sync() returns (outcome: Outcome)
      requires Valid()
      modifies this, sock
      ensures written == old(written) && delivered == old(delivered)
      ensures outcome == SendLoop(old(pptr), 0, old(sock.answers)).0
      ensures outcome == Done ==> Valid() && sock.sent == written && pptr == 0
      ensures outcome == Done <==> old(pptr == 0 || (sock.answers != [] && sock.answers[0] >= pptr))
      ensures outcome != Done ==>
                && sock.sent == old(sock.sent + outBuf[..SendLoop(pptr, 0, sock.answers).1])
                && pptr == old(pptr) && (Valid() <==> sock.sent == old(sock.sent))
      ensures Shaped() && Reading() && sock.pieces == old(sock.pieces)
      ensures Ends(sock.answers, old(sock.answers))
    {
      hide InStep, Ends, Answer, SendLoop;
      SendsAllOrNever(pptr, sock.answers);
      var sent: nat;
      outcome, sent := SendBuffer(pptr);
      if outcome != Done {
        SameLength(old(sock.sent), outBuf[..sent], outBuf[..pptr], written);
        return;
      }
      pptr := 0;
    }

    /** Writing a block byte by byte and flushing it. On a socket that takes every request whole
        or not at all, what was sent and the put area are what was written after every call, and
        success means that the peer has received all of it. */
    method WriteAndFlush(block: string) returns (ok: bool)
      requires Valid() && WholeOrNothing(sock.answers, outBuf.Length)
      modifies this, outBuf, sock
      ensures Valid() && WholeOrNothing(sock.answers, outBuf.Length)
      ensures ok ==> sock.sent == old(written) + block
      ensures old(written) <= written <= old(written) + block && sock.sent <= written
      ensures delivered == old(delivered)
    {
      hide InStep, Answer, SendLoop, Ends, WholeOrNothing;
      var i := 0;
      while i < |block|
        invariant 0 <= i <= |block| && Valid() && WholeOrNothing(sock.answers, outBuf.Length)
        invariant written == old(written) + block[..i] && delivered == old(delivered)
      {
        ghost var answers, sent := sock.answers, sock.sent;
        WholeOrNothingSends(outBuf.Length, outBuf.Length, answers);
        var outcome := Overflow(Some(block[i]));
        EndsWhole(sock.answers, answers, outBuf.Length);
        assert outcome != Done ==> sock.sent == sent + [];
        if outcome != Done {
          return false;
        }
        assert block[..i + 1] == block[..i] + [block[i]];
        i := i + 1;
      }
      ghost var answers, sent := sock.answers, sock.sent;
      WholeOrNothingSends(pptr, outBuf.Length, answers);
      var outcome := Sync();
      EndsWhole(sock.answers, answers, outBuf.Length);
      assert block[..i] == block;
      assert outcome != Done ==> sock.sent == sent + [];
      ok := outcome == Done;
    }
  }
}
