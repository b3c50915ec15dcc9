/** The download loop of `Progress` in util/file/file.go, with only its byte
    accounting: the response body is read into a 2048-byte buffer, each read
    is written on to the sink, and the count of bytes read is kept, until a
    read reports the end of the body or an error. */
module Streaming {
  import opened Outcomes
  import opened FileSystem

  /** The size of the buffer the loop reads into. */
  const BufferSize: nat := 2048

  /** How a read of the body ended: more to come, the end of the body
      (`io.EOF`), or another error. */
  datatype ReadStatus = More | Eof | Fail(reason: string)

  /** What one read of the body delivers: some bytes, and how it ended. */
  datatype Chunk = Chunk(data: seq<byte>, status: ReadStatus)

  /** The bytes of the chunks, one after the other. */
  function Concat(cs: seq<Chunk>): seq<byte>
  {
    if cs == [] then [] else cs[0].data + Concat(cs[1..])
  }

  /** What the loop passed on, and how it ended. */
  datatype Copied = Copied(bytes: seq<byte>, err: Option<Error>)

  /** The loop over the reads `cs` (after which every read reports the end):
      every read's bytes are written, the one that reports the end or an
      error included, and the loop stops at that read. */
  function StreamSpec(cs: seq<Chunk>): Copied
  {
    if cs == [] then Copied([], None)
    else
      match cs[0].status
      case More =>
        var rest := StreamSpec(cs[1..]);
        Copied(cs[0].data + rest.bytes, rest.err)
      case Eof => Copied(cs[0].data, None)
      case Fail(reason) => Copied(cs[0].data, Some(ReadFailed(reason)))
  }

  /** The response body, as the reads still to come. */
  class Body {
    var chunks: seq<Chunk>

    constructor (chunks0: seq<Chunk>)
      ensures chunks == chunks0
    {
      chunks := chunks0;
    }

    /** `Body.Read(p)`: the next chunk goes to the front of `p`; once the
        chunks are used up, a read delivers nothing and reports the end. */
    method Read(p: array<byte>) returns (n: nat, status: ReadStatus)
      requires forall i :: 0 <= i < |chunks| ==> |chunks[i].data| <= p.Length
      modifies this, p
      ensures chunks == if old(chunks) == [] then [] else old(chunks)[1..]
      ensures old(chunks) == [] ==> n == 0 && status == Eof
      ensures old(chunks) != [] ==>
        n == |old(chunks)[0].data| && p[..n] == old(chunks)[0].data && status == old(chunks)[0].status
    {
      if chunks == [] {
        return 0, Eof;
      }
      var data := chunks[0].data;
      n, status := |data|, chunks[0].status;
      var i := 0;
      while i < n
        modifies p
        invariant 0 <= i <= n <= p.Length
        invariant p[..i] == data[..i]
      {
        p[i] := data[i];
        i := i + 1;
      }
      chunks := chunks[1..];
    }
  }

  /** The writer the body is copied to, as the bytes written to it. */
  class Sink {
    var written: seq<byte>

    constructor ()
      ensures written == []
    {
      written := [];
    }

    method Write(b: seq<byte>)
      modifies this
      ensures written == old(written) + b
    {
      written := written + b;
    }
  }

  /** `Progress(path, w)` from the response on: returns the error of the read
      that ended the loop (none for the end of the body) and the count of
      bytes read, `down`. */
  method Progress(body: Body, w: Sink) returns (err: Option<Error>, down: nat)
    requires forall i :: 0 <= i < |body.chunks| ==> |body.chunks[i].data| <= BufferSize
    modifies body, w
    ensures w.written == old(w.written) + StreamSpec(old(body.chunks)).bytes
    ensures err == StreamSpec(old(body.chunks)).err
    ensures down == |StreamSpec(old(body.chunks)).bytes|
  {
    var p := new byte[BufferSize];
    down := 0;
    ghost var sent: seq<byte> := [];
    while true
      invariant forall i :: 0 <= i < |body.chunks| ==> |body.chunks[i].data| <= BufferSize
      invariant w.written == old(w.written) + sent
      invariant down == |sent|
      invariant StreamSpec(old(body.chunks)) ==
        Copied(sent + StreamSpec(body.chunks).bytes, StreamSpec(body.chunks).err)
      decreases |body.chunks|
    {
      var n, status := body.Read(p);
      w.Write(p[..n]);
      down := down + n;
      assert sent + (p[..n] + StreamSpec(body.chunks).bytes) == (sent + p[..n]) + StreamSpec(body.chunks).bytes;
      sent := sent + p[..n];
      if status != More {
        if status.Fail? {
          return Some(ReadFailed(status.reason)), down;
        }
        return None, down;
      }
    }
  }

  /** The loop ends at the first read that reports the end or an error, and
      what it wrote is every read up to and including that one. */
  lemma {:induction false} StreamStops(cs: seq<Chunk>, k: nat)
    requires k < |cs| && !cs[k].status.More?
    requires forall i :: 0 <= i < k ==> cs[i].status.More?
    ensures StreamSpec(cs).bytes == Concat(cs[..k + 1])
    ensures StreamSpec(cs).err == if cs[k].status.Eof? then None else Some(ReadFailed(cs[k].status.reason))
  {
    if k == 0 {
      assert cs[..1] == [cs[0]];
      assert Concat([cs[0]]) == cs[0].data + Concat([]);
    } else {
      StreamStops(cs[1..], k - 1);
      assert cs[..k + 1][1..] == cs[1..][..k];
    }
  }

  /** When no read reports the end or an error, the loop writes every
      chunk and ends without error once the body is used up. */
  lemma {:induction false} StreamAll(cs: seq<Chunk>)
    requires forall i :: 0 <= i < |cs| ==> cs[i].status.More?
    ensures StreamSpec(cs) == Copied(Concat(cs), None)
  {
    if cs != [] {
      StreamAll(cs[1..]);
    }
  }
}
