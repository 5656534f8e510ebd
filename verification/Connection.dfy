/** The output half of the class `Connection`: its fields, the growing output buffer, and the send
    methods. Each method makes the step that module `Responses` gives for its call. */
module Connections {
  import opened Wrappers
  import opened Streams
  import opened Numbers
  import opened FileRanges
  import opened Responses

  /** An open file. A read may return fewer bytes than asked for, but not none before the end. */
  class File {
    const content: string
    var pos: nat
    var eof: bool

    constructor (content: string)
      ensures this.content == content && pos == 0 && !eof
    {
      this.content, pos, eof := content, 0, false;
    }

    method Read(k: nat) returns (block: string)
      requires pos <= |content|
      modifies this
      ensures pos == old(pos) + |block| <= |content| && block == content[old(pos)..pos] && |block| <= k
      ensures k > 0 && old(pos) < |content| ==> block != ""
      ensures eof == (old(eof) || (|block| < k && pos == |content|))
    {
      var available := if k <= |content| - pos then k else |content| - pos;
      var m: nat := 0;
      if available > 0 {
        m :| 1 <= m <= available;
      }
      block := content[pos..pos + m];
      pos := pos + m;
      if m < k && pos == |content| {
        eof := true;
      }
    }
  }

  // ------------------------------------------------------------ blocks

  lemma WireGrows(before: string, chunked: bool, blocks: seq<string>, block: string)
    ensures before + Wire(chunked, blocks + [block])
            == before + Wire(chunked, blocks) + (if chunked then Chunk(block) else block)
  {
    ChunkBytesConcat(blocks, [block]);
    assert Flatten([block]) == block + "" == block;
    assert ChunkBytes([block]) == Chunk(block) + "" == Chunk(block);
  }

  // ------------------------------------------------------------ the connection

  class Connection {
    var status: string
    var headerOut: seq<(string, string)>
    var headerSent: bool
    var finished: bool
    var chunkedOut: bool
    var outbuf: array?<char>
    var outbufSize: nat
    const outbufInc: nat
    var outbufNbytes: nat
    var os: string

    ghost predicate Valid()
      reads this
    {
      outbufInc > 0 && (outbuf != null ==> outbufNbytes <= outbufSize == outbuf.Length)
    }

    ghost function Repr(): set<object>
      reads this
    {
      if outbuf == null then {this} else {this, outbuf}
    }

    ghost function Abs(): Response
      requires Valid()
      reads this, Repr()
    {
      Response(status, headerOut, headerSent, finished, chunkedOut,
               if outbuf == null then None else Some(outbuf[..outbufNbytes]), os)
    }

    /** A positive `bufSize` gives a buffered connection from the start. */
    constructor (status: string, bufSize: nat, bufInc: nat)
      requires bufInc > 0
      ensures Valid() && fresh(Repr())
      ensures Abs() == Response(status, [], false, false, false, if bufSize > 0 then Some("") else None, "")
    {
      this.status, headerOut, headerSent, finished, chunkedOut := status, [], false, false, false;
      outbufSize, outbufInc, outbufNbytes, os := bufSize, bufInc, 0, "";
      outbuf := null;
      new;
      if bufSize > 0 {
        outbuf := new char[bufSize];
      }
    }

    method SetBuffer() returns (threw: bool)
      requires Valid()
      modifies this
      ensures Valid() && fresh(Repr() - old(Repr()))
      ensures StepResult(Abs(), threw) == Step(old(Abs()), Op.SetBuffer)
    {
      if headerSent {
        return true;
      }
      if outbuf == null {
        outbuf := new char[outbufSize];
        outbufNbytes := 0;
      }
      return false;
    }

    /** `header_out[name] = value`. */
    method PutHeader(name: string, value: string)
      requires Valid()
      modifies `headerOut
      ensures headerOut == SetHeader(old(headerOut), name, value)
    {
      headerOut := SetHeader(headerOut, name, value);
    }

    method SetChunkedTransfer() returns (threw: bool)
      requires Valid()
      modifies this
      ensures Valid() && Repr() == old(Repr())
      ensures StepResult(Abs(), threw) == Step(old(Abs()), SetChunked)
    {
      if headerSent {
        return true;
      }
      PutHeader("Transfer-Encoding", "chunked");
      chunkedOut := true;
      return false;
    }

    method Header(name: string, value: string) returns (threw: bool)
      requires Valid()
      modifies this
      ensures Valid() && Repr() == old(Repr())
      ensures StepResult(Abs(), threw) == Step(old(Abs()), Op.Header(name, value))
    {
      if headerSent {
        return true;
      }
      PutHeader(name, value);
      return false;
    }

    /** Appends to the buffer, reallocating by whole increments when it is too small. */
    method AddToOutbuf(data: string)
      requires Valid() && outbuf != null && !finished
      modifies Repr()
      ensures Valid() && outbuf != null && fresh(Repr() - old(Repr()))
      ensures Abs() == AddToBuffer(old(Abs()), data)
      ensures outbufNbytes == old(outbufNbytes) + |data| <= outbufSize
      ensures outbufSize == old(outbufSize) ||
              (old(outbufNbytes) + |data| > old(outbufSize) && outbufSize - old(outbufSize) < |data| + outbufInc)
    {
      var n := |data|;
      if outbufNbytes + n > outbufSize {
        RoundUp(n, outbufInc);
        var incsize := outbufSize + (n + outbufInc - 1) / outbufInc * outbufInc;
        var tmpbuf := new char[incsize];
        forall i | 0 <= i < outbufNbytes {
          tmpbuf[i] := outbuf[i];
        }
        assert tmpbuf[..outbufNbytes] == outbuf[..outbufNbytes];
        outbuf := tmpbuf;
        outbufSize := incsize;
      }
      forall i | 0 <= i < n {
        outbuf[outbufNbytes + i] := data[i];
      }
      outbufNbytes := outbufNbytes + n;
      assert outbuf[..outbufNbytes] == old(outbuf[..outbufNbytes]) + data;
    }

    method WriteOut(data: string)
      modifies `os
      ensures os == old(os) + data
    {
      os := os + data;
    }

    method WriteHeaderLines()
      modifies `os
      ensures os == old(os) + HeaderLines(headerOut)
    {
      var i := 0;
      while i < |headerOut|
        invariant 0 <= i <= |headerOut|
        invariant os + HeaderLines(headerOut[i..]) == old(os) + HeaderLines(headerOut)
      {
        assert headerOut[i..][1..] == headerOut[i + 1..];
        WriteOut(headerOut[i].0 + ": " + headerOut[i].1 + CRLF);
        i := i + 1;
      }
    }

    method SendHeader(n: nat)
      requires Valid() && !headerSent
      modifies `os, `headerSent
      ensures Valid() && Abs() == Responses.SendHeader(old(Abs()), n)
    {
      ghost var before := Abs();
      WriteOut(status + CRLF);
      WriteHeaderLines();
      HeadPieces(before.out, before, n);
      if chunkedOut {
        WriteOut(CRLF);
      } else if outbuf != null && outbufNbytes > 0 {
        WriteOut("Content-Length: " + Decimal(outbufNbytes) + CRLF + CRLF);
      } else {
        WriteOut("Content-Length: " + Decimal(n) + CRLF + CRLF);
      }
      headerSent := true;
    }

    method WriteChunk(data: string)
      modifies `os
      ensures os == old(os) + Chunk(data)
    {
      WriteOut(Hex(|data|) + CRLF);
      WriteOut(data);
      WriteOut(CRLF);
      assert os == old(os) + Chunk(data);
    }

    method Send(data: string) returns (threw: bool)
      requires Valid()
      modifies Repr()
      ensures Valid() && fresh(Repr() - old(Repr()))
      ensures StepResult(Abs(), threw) == Step(old(Abs()), Op.Send(data))
    {
      if finished {
        return true;
      }
      if outbuf != null {
        AddToOutbuf(data);
        return false;
      }
      if !headerSent {
        if chunkedOut {
          SendHeader(0);
          WriteChunk(data);
        } else {
          SendHeader(|data|);
          WriteOut(data);
          finished := true;
        }
      } else if chunkedOut {
        WriteChunk(data);
      } else {
        return true;
      }
      return false;
    }

    method SendAndFlush(data: string) returns (threw: bool)
      requires Valid()
      modifies Repr()
      ensures Valid() && fresh(Repr() - old(Repr()))
      ensures StepResult(Abs(), threw) == Step(old(Abs()), Op.SendAndFlush(data))
    {
      if finished {
        return true;
      }
      if outbuf != null {
        AddToOutbuf(data);
      }
      if chunkedOut {
        if !headerSent {
          SendHeader(0);
        }
        if outbuf != null {
          WriteChunk(outbuf[..outbufNbytes]);
          outbufNbytes := 0;
        } else {
          WriteChunk(data);
        }
        return false;
      }
      if headerSent {
        return true;
      }
      if outbuf != null && outbufNbytes > 0 {
        SendHeader(0);
        WriteOut(data);
        outbufNbytes := 0;
      } else {
        SendHeader(|data|);
        WriteOut(data);
      }
      finished := true;
      return false;
    }

    method Flush() returns (threw: bool)
      requires Valid()
      modifies Repr()
      ensures Valid() && Repr() == old(Repr())
      ensures StepResult(Abs(), threw) == Step(old(Abs()), Op.Flush)
    {
      if !headerSent {
        if finished {
          return true;
        }
        SendHeader(0);
      }
      if outbuf != null && outbufNbytes > 0 {
        if finished {
          return true;
        }
        if chunkedOut {
          WriteChunk(outbuf[..outbufNbytes]);
        } else {
          WriteOut(outbuf[..outbufNbytes]);
          finished := true;
        }
        outbufNbytes := 0;
      } else if !chunkedOut {
        finished := true;
      }
      return false;
    }

    /** The block loop of `sendFile` in buffered mode. */
    method BufferBlocks(infile: File, bufsize: nat, fsize: nat) returns (ghost blocks: seq<string>)
      requires Valid() && outbuf != null && !finished && bufsize > 0 && infile.pos <= |infile.content|
      modifies Repr(), infile
      ensures Valid() && fresh(Repr() - old(Repr()))
      ensures var start := old(infile.pos);
              var end := if start + fsize <= |infile.content| then start + fsize else |infile.content|;
              && Flatten(blocks) == infile.content[start..end] && "" !in blocks
              && Abs() == AddToBuffer(old(Abs()), infile.content[start..end])
    {
      ghost var before, start := Abs(), infile.pos;
      blocks := [];
      assert outbuf[..outbufNbytes] + "" == outbuf[..outbufNbytes];
      var nn := 0;
      while nn < fsize
        invariant Valid() && outbuf != null && !finished && fresh(Repr() - old(Repr()))
        invariant nn <= fsize && start + nn == infile.pos <= |infile.content|
        invariant Flatten(blocks) == infile.content[start..infile.pos] && "" !in blocks
        invariant Abs() == AddToBuffer(before, infile.content[start..infile.pos])
      {
        var block := infile.Read(if fsize - nn > bufsize then bufsize else fsize - nn);
        if block == "" {
          break;
        }
        AddToOutbuf(block);
        BlockAdded(blocks, block, infile.content, start, infile.pos);
        assert before.buffer.value + infile.content[start..infile.pos]
               == before.buffer.value + infile.content[start..infile.pos - |block|] + block;
        blocks := blocks + [block];
        nn := nn + |block|;
      }
    }

    method WriteBlock(block: string)
      modifies `os
      ensures os == old(os) + (if chunkedOut then Chunk(block) else block)
    {
      if chunkedOut {
        WriteChunk(block);
      } else {
        WriteOut(block);
      }
    }

    /** The block loop of `sendFile` in unbuffered mode. */
    method WriteBlocks(infile: File, bufsize: nat, fsize: nat) returns (ghost blocks: seq<string>)
      requires bufsize > 0 && infile.pos <= |infile.content| && !infile.eof
      modifies `os, infile
      ensures var start := old(infile.pos);
              var end := if start + fsize <= |infile.content| then start + fsize else |infile.content|;
              && Flatten(blocks) == infile.content[start..end] && "" !in blocks
              && os == old(os) + Wire(chunkedOut, blocks)
              && infile.eof == (start + fsize > |infile.content|)
    {
      ghost var before, start := os, infile.pos;
      blocks := [];
      var nn := 0;
      while nn < fsize
        invariant nn <= fsize && start + nn == infile.pos <= |infile.content|
        invariant Flatten(blocks) == infile.content[start..infile.pos] && "" !in blocks
        invariant os == before + Wire(chunkedOut, blocks)
        invariant infile.eof ==> infile.pos == |infile.content| < start + fsize
      {
        var block := infile.Read(if fsize - nn > bufsize then bufsize else fsize - nn);
        if block == "" {
          break;
        }
        BlockAdded(blocks, block, infile.content, start, infile.pos);
        WriteBlock(block);
        WireGrows(before, chunkedOut, blocks, block);
        blocks := blocks + [block];
        nn := nn + |block|;
      }
    }

    /** `sendFile` on a readable file: buffered, it only fills the buffer; otherwise the range goes
        out in blocks of whatever sizes the reads return, as chunks in chunked mode. */
    method SendFile(content: FileBytes, bufsize: nat, from: int, to: int)
        returns (threw: bool, ghost blocks: seq<string>)
      requires Valid() && bufsize > 0
      modifies Repr()
      ensures Valid() && fresh(Repr() - old(Repr()))
      ensures threw == (old(finished) || RangeRefused(|content|, from, to))
      ensures threw || (Flatten(blocks) == FilePart(content, from, to) && "" !in blocks)
      ensures StepResult(Abs(), threw) == Step(old(Abs()), Op.SendFile(content, from, to, blocks))
    {
      hide Flatten, HeaderLines, Chunk, Wire;
      blocks := [];
      if finished || (from > 0 && from >= |content|) || (to > 0 && to > |content|) {
        return true, [];
      }
      RangeBounds(|content|, from, to);
      var infile := new File(content);
      if from > 0 {
        infile.pos := from;
      }
      var fsize := RangeLength(|content|, from, to);
      if outbuf != null {
        blocks := BufferBlocks(infile, bufsize, fsize);
        return false, blocks;
      }
      blocks := WriteRange(infile, bufsize, fsize);
      return false, blocks;
    }

    /** The unbuffered case: the header if it is not out yet, and the blocks. A file that ends early
        finishes the response. */
    method WriteRange(infile: File, bufsize: nat, fsize: nat) returns (ghost blocks: seq<string>)
      requires Valid() && outbuf == null && !finished && bufsize > 0
      requires infile.pos <= |infile.content| && !infile.eof
      modifies `os, `headerSent, `finished, infile
      ensures var start := old(infile.pos);
              var end := if start + fsize <= |infile.content| then start + fsize else |infile.content|;
              var r := if old(headerSent) then old(Abs()) else Responses.SendHeader(old(Abs()), fsize);
              && Flatten(blocks) == infile.content[start..end] && "" !in blocks
              && Abs() == Write(r, Wire(r.chunked, blocks)).(finished := start + fsize > |infile.content|)
    {
      hide Flatten, HeaderLines, Chunk, Wire;
      if !headerSent {
        SendHeader(if chunkedOut then 0 else fsize);
        LengthUnused(status, headerOut, 0, fsize);
      }
      blocks := WriteBlocks(infile, bufsize, fsize);
      if infile.eof {
        finished := true;
      }
    }

    method Finalize()
      requires Valid()
      modifies this
      ensures Valid() && Abs() == Responses.Finalize(old(Abs()))
    {
      if chunkedOut && !finished {
        WriteOut("0" + CRLF + CRLF);
      }
      WriteOut(CRLF);
      finished := true;
    }
  }

  /** The header block in the pieces `send_header` writes. */
  lemma HeadPieces(out: string, r: Response, n: nat)
    ensures var last := if r.chunked then CRLF else "Content-Length: " + Decimal(Announced(r, n)) + CRLF + CRLF;
            out + (r.status + CRLF) + HeaderLines(r.headers) + last
            == out + Head(r.status, r.headers, r.chunked, Announced(r, n))
  {
    var last := if r.chunked then CRLF else "Content-Length: " + Decimal(Announced(r, n)) + CRLF + CRLF;
    assert out + (r.status + CRLF) + HeaderLines(r.headers) + last
           == out + (r.status + CRLF + HeaderLines(r.headers) + last);
  }

  lemma BlockAdded(blocks: seq<string>, block: string, content: string, start: nat, pos: nat)
    requires |block| <= pos - start && start <= pos <= |content| && block == content[pos - |block|..pos]
    requires Flatten(blocks) == content[start..pos - |block|]
    ensures Flatten(blocks + [block]) == content[start..pos]
    ensures content[start..pos] == content[start..pos - |block|] + block
  {
    ChunkBytesConcat(blocks, [block]);
    assert Flatten([block]) == block + "" == block;
  }

  lemma RoundUp(n: nat, inc: nat)
    requires inc > 0
    ensures n <= (n + inc - 1) / inc * inc < n + inc
  {
    var q, rem := (n + inc - 1) / inc, (n + inc - 1) % inc;
    assert n + inc - 1 == q * inc + rem;
  }
}
