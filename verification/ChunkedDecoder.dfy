/** The chunked decoder as an object that consumes a shared buffer in place. */
module Decoding {
  import opened Wrappers
  import opened Bytes
  import opened Chunked

  /** Having decoded `chunks`, going on from `d` and `buffer` gives `whole`. */
  ghost predicate Resumes(chunks: seq<bytes>, d: Decoder, buffer: bytes, max: nat, whole: Fed) {
    var f := Chunked.Feed(d, buffer, max);
    f.(chunks := chunks + f.chunks) == whole
  }

  lemma ResumesAtStart(d: Decoder, buffer: bytes, max: nat)
    ensures Resumes([], d, buffer, max, Chunked.Feed(d, buffer, max))
  {
    var f := Chunked.Feed(d, buffer, max);
    assert [] + f.chunks == f.chunks;
  }

  lemma LastIsDone(d: Decoder, buffer: bytes, max: nat)
    requires !d.done && Step(d, buffer, max).Take?
    ensures var m := Step(d, buffer, max);
            (m.next.done <==> m.last) && (m.last ==> m.out == [])
  {
  }

  lemma ResumesAfterLast(chunks: seq<bytes>, d: Decoder, buffer: bytes, max: nat, whole: Fed)
    requires Step(d, buffer, max).Take? && Step(d, buffer, max).last && Resumes(chunks, d, buffer, max, whole)
    ensures var m := Step(d, buffer, max); whole == Fed(m.next, buffer[m.n..], chunks, None)
  {
    assert chunks + [] == chunks;
  }

  lemma ResumesAfterTake(chunks: seq<bytes>, d: Decoder, buffer: bytes, max: nat, whole: Fed)
    requires !d.done && Step(d, buffer, max).Take? && Resumes(chunks, d, buffer, max, whole)
    ensures var m := Step(d, buffer, max);
            && (m.next.done <==> m.last)
            && (if m.last then whole == Fed(m.next, buffer[m.n..], chunks, None) && m.out == []
                else Resumes(chunks + (if m.out == [] then [] else [m.out]), m.next, buffer[m.n..], max, whole))
  {
    var m := Step(d, buffer, max);
    LastIsDone(d, buffer, max);
    if m.last {
      ResumesAfterLast(chunks, d, buffer, max, whole);
    } else {
      var f := Chunked.Feed(m.next, buffer[m.n..], max);
      var c := if m.out == [] then [] else [m.out];
      assert Chunked.Feed(d, buffer, max) == f.(chunks := c + f.chunks);
      assert chunks + (c + f.chunks) == (chunks + c) + f.chunks;
    }
  }

  lemma ResumesAtEnd(chunks: seq<bytes>, d: Decoder, buffer: bytes, max: nat, whole: Fed)
    requires !Step(d, buffer, max).Take? && Resumes(chunks, d, buffer, max, whole)
    ensures var m := Step(d, buffer, max);
            if m.Wait? then whole == Fed(d, buffer, chunks, None)
            else whole == Fed(d, buffer[m.n..], chunks, Some(m.status))
  {
    assert chunks + [] == chunks;
  }

  class ChunkedDecoder {
    var mode: Mode
    var remaining: nat
    var done: bool
    var trailers: seq<Field>

    constructor ()
      ensures State() == INITIAL
    {
      mode, remaining, done, trailers := Size, 0, false, [];
    }

    function State(): Decoder
      reads this
    {
      Decoder(mode, remaining, done, trailers)
    }

    /** One look at the buffer: a line, a chunk or its terminator, in place. */
    method Advance(buffer: Buffer, max: nat) returns (moved: bool, out: bytes, error: Option<nat>)
      modifies this, buffer
      ensures match Step(old(State()), old(buffer.data), max)
              case Wait => !moved && error.None? && State() == old(State()) && buffer.data == old(buffer.data)
              case Refuse(status, n) => error == Some(status) && State() == old(State()) && buffer.data == old(buffer.data)[n..]
              case Take(next, n, bytes, last) =>
                moved && error.None? && out == bytes && State() == next && buffer.data == old(buffer.data)[n..]
    {
      moved, out, error := true, [], None;
      if mode.Data? {
        var take := if |buffer.data| < remaining then |buffer.data| else remaining;
        if take > 0 {
          out := buffer.data[..take];
          buffer.data := buffer.data[take..];
          remaining := remaining - take;
        } else if remaining > 0 || |buffer.data| < 2 {
          moved := false;
        } else if buffer.data[..2] != CRLF {
          error := Some(400);
        } else {
          buffer.data := buffer.data[2..];
          mode := Size;
        }
        return;
      }
      var index := FindCrlf(buffer.data);
      if index.None? {
        moved := false;
        if |buffer.data| > MAX_CHUNK_LINE {
          error := Some(400);
        }
        return;
      }
      var line := buffer.data[..index.value];
      buffer.data := buffer.data[index.value + 2..];
      if mode.Size? {
        match ParseSize(line, max) {
          case Err(status) => error := Some(status);
          case Ok(size) =>
            if size == 0 {
              mode := Trailer;
            } else {
              mode, remaining := Data, size;
            }
        }
      } else if line == [] {
        done := true;
      } else {
        match ParseTrailer(line) {
          case Err(status) => error := Some(status);
          case Ok(field) =>
            if |trailers| < MAX_TRAILER_FIELDS {
              trailers := trailers + [field];
            }
        }
      }
    }

    /** Consume the buffer in place and return the decoded chunks, or the status
        the message is refused with. */
    method Feed(buffer: Buffer, max: nat) returns (chunks: seq<bytes>, error: Option<nat>)
      requires !done
      modifies this, buffer
      ensures var f := Chunked.Feed(old(State()), old(buffer.data), max);
              && State() == f.next && buffer.data == f.rest && error == f.error
              && (error.None? ==> chunks == f.chunks)
    {
      chunks := [];
      ghost var whole := Chunked.Feed(State(), buffer.data, max);
      ResumesAtStart(State(), buffer.data, max);
      while true
        invariant !done && Resumes(chunks, State(), buffer.data, max, whole)
        decreases |buffer.data|
      {
        ghost var d, data := State(), buffer.data;
        var moved, out;
        moved, out, error := Advance(buffer, max);
        if !moved || error.Some? {
          ResumesAtEnd(chunks, d, data, max, whole);
          return;
        }
        ResumesAfterTake(chunks, d, data, max, whole);
        if done {
          return;
        }
        if out != [] {
          chunks := chunks + [out];
        } else {
          assert chunks + [] == chunks;
        }
      }
    }
  }
}
