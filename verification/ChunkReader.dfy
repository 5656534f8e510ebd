/** The class `ChunkReader` with its fields: every method does on its stream exactly what the
    function of module `Chunks` says. After an exception the reader is not used again. */
module ChunkReaders {
  import opened Wrappers
  import opened Streams
  import opened Numbers
  import opened Chunks

  class ChunkReader {
    const ins: InputStream
    const postMaxsize: nat
    var chunkSize: nat
    var chunkPos: nat

    constructor (ins: InputStream, postMaxsize: nat)
      ensures this.ins == ins && this.postMaxsize == postMaxsize
      ensures Abs() == Reader(ins.Abs(), 0, 0)
    {
      this.ins, this.postMaxsize, chunkSize, chunkPos := ins, postMaxsize, 0, 0;
    }

    ghost function Abs(): Reader
      reads this, ins
    {
      Reader(ins.Abs(), chunkSize, chunkPos)
    }

    /** `safeGetline` followed by the test of the stream's state. */
    method TakeLine() returns (r: Result<string>)
      modifies ins
      ensures match TakeTextLine(old(ins.Abs()))
              case Err(e) => r == Err(e)
              case Ok((text, after)) => r == Ok(text) && ins.Abs() == after
    {
      var res := ins.SafeGetline(MAX_HEADERLINE_LEN);
      if res.Err? {
        return Err(res.error);
      }
      if ins.fail || ins.eof {
        return Err(InputFailure);
      }
      return Ok(res.value.0);
    }

    method LoadChunk() returns (r: Result<bool>)
      modifies this, ins
      ensures match Load(old(Abs()), postMaxsize)
              case Err(e) => r == Err(e)
              case Ok(next) => r == Ok(next.size > 0) && Abs() == next
    {
      if chunkPos < chunkSize {
        return Ok(true);
      }
      var line :- TakeLine();
      var n :- StoUL(line);
      if postMaxsize > 0 && n > postMaxsize {
        return Err(TooBig);
      }
      chunkSize := n;
      if chunkSize == 0 {
        var _ :- TakeLine();
        return Ok(false);
      }
      chunkPos := 0;
      return Ok(true);
    }

    method CountByte() returns (r: Result<bool>)
      modifies this, ins
      ensures match Count(old(Abs()))
              case Err(e) => r == Err(e)
              case Ok(next) => r == Ok(true) && Abs() == next
    {
      chunkPos := chunkPos + 1;
      if chunkPos >= chunkSize {
        var _ :- TakeLine();
      }
      return Ok(true);
    }

    method TakeByte() returns (r: Result<Option<char>>)
      modifies this, ins
      ensures match Take(old(Abs()))
              case Err(e) => r == Err(e)
              case Ok((c, next)) => r == Ok(c) && Abs() == next
    {
      var c := ins.Bump();
      var _ :- CountByte();
      return Ok(c);
    }

    method GetC() returns (r: Result<Option<char>>)
      modifies this, ins
      ensures match Chunks.GetC(old(Abs()), postMaxsize)
              case Err(e) => r == Err(e)
              case Ok((c, next)) => r == Ok(c) && Abs() == next
    {
      var more :- LoadChunk();
      if !more {
        return Ok(None);
      }
      r := TakeByte();
    }

    method TakeLf(n: nat) returns (r: Result<nat>)
      modifies this, ins
      ensures match AfterCr(old(Abs()), n)
              case Err(e) => r == Err(e)
              case Ok((m, next)) => r == Ok(m) && Abs() == next
    {
      if ins.rest == "" || ins.rest[0] != '\n' {
        return Ok(n);
      }
      var _ := ins.Bump();
      var _ :- CountByte();
      return Ok(n + 1);
    }

    method GetLine() returns (r: Result<(string, nat)>)
      modifies this, ins
      ensures match Chunks.GetLine(old(Abs()), postMaxsize, "", 0)
              case Err(e) => r == Err(e)
              case Ok((t, n, next)) => r == Ok((t, n)) && Abs() == next
    {
      ghost var all := Chunks.GetLine(Abs(), postMaxsize, "", 0);
      var t := "";
      var n := 0;
      while true
        invariant Chunks.GetLine(Abs(), postMaxsize, t, n) == all
        decreases |ins.rest|
      {
        var more :- LoadChunk();
        if !more {
          return Ok((t, n));
        }
        var c :- TakeByte();
        n := n + 1;
        match c {
          case None =>
            if t == "" {
              ins.eof := true;
            }
            return Ok((t, n));
          case Some(b) =>
            if b == '\n' {
              return Ok((t, n));
            }
            if b == '\r' {
              n :- TakeLf(n);
              return Ok((t, n));
            }
            t := t + [b];
        }
      }
    }

    method ReadChunk() returns (r: Result<string>)
      modifies ins
      ensures match Chunks.ReadChunk(old(ins.Abs()), postMaxsize)
              case Err(e) => r == Err(e)
              case Ok((data, after)) => r == Ok(data) && ins.Abs() == after
    {
      var line :- TakeLine();
      var n :- StoL(line);
      if postMaxsize > 0 && (n < 0 || n > postMaxsize) {
        return Err(TooBig);
      }
      if n == 0 {
        return Ok("");
      }
      if n < 0 {
        return Err(ReadFailed);
      }
      var data := ins.Read(n);
      if ins.fail || ins.eof {
        return Err(InputFailure);
      }
      var _ :- TakeLine();
      return Ok(data);
    }

    method ReadAll() returns (r: Result<string>)
      modifies ins
      ensures match Chunks.ReadAll(old(ins.Abs()), postMaxsize, "")
              case Err(e) => r == Err(e)
              case Ok((data, after)) => r == Ok(data) && ins.Abs() == after
    {
      ghost var all := Chunks.ReadAll(ins.Abs(), postMaxsize, "");
      var buf := "";
      while true
        invariant Chunks.ReadAll(ins.Abs(), postMaxsize, buf) == all
        decreases |ins.rest|
      {
        var chunk :- ReadChunk();
        if chunk == "" {
          return Ok(buf);
        }
        buf := buf + chunk;
        if postMaxsize > 0 && |buf| > postMaxsize {
          return Err(TooBig);
        }
      }
    }
  }
}
