/** The connection to the application behind the proxy, as its reader sees it. */
module Upstream {
  import opened Wrappers
  import opened Bytes
  import Head

  const CHUNK_SIZE: nat := 65536

  /** Bytes that have arrived and what has been noted of the end, and then what is still
      to come: arrivals in order, and the end of the connection, orderly or by a reset.
      Cuts and closing point are arbitrary. */
  class UpstreamConnection {
    var buffer: bytes
    var eof: bool
    var error: bool       // set by a reset, and never read
    var coming: seq<bytes>
    const reset: bool

    constructor (coming: seq<bytes>, reset: bool)
      ensures Valid() && Stream() == Flat(coming) && this.reset == reset
    {
      this.buffer, this.eof, this.error, this.coming, this.reset := [], false, false, coming, reset;
      new;
      assert [] + Flat(coming) == Flat(coming);
    }

    ghost predicate Valid()
      reads this
    {
      (eof ==> coming == []) && (error <==> eof && reset)
    }

    /** Everything that can still be read. */
    ghost function Stream(): bytes
      reads this
    {
      buffer + Flat(coming)
    }

    /** How many events are still to come. */
    function Pending(): nat
      reads this
    {
      |coming| + if eof then 0 else 1
    }

    /** Some events, maybe none, get in before the reader goes on. */
    method Arrive(least: nat)
      requires Valid() && least <= Pending()
      modifies this
      ensures Valid() && Stream() == old(Stream()) && old(buffer) <= buffer
      ensures Pending() + least <= old(Pending())
    {
      var events: nat :| least <= events <= Pending();
      var n := if events <= |coming| then events else |coming|;
      FlatConcat(coming[..n], coming[n..]);
      assert coming[..n] + coming[n..] == coming;
      ConcatAssoc(buffer, Flat(coming[..n]), Flat(coming[n..]));
      buffer := buffer + Flat(coming[..n]);
      coming := coming[n..];
      if events > n {
        ConnectionLost();
      }
    }

    /** Either way of losing the connection ends the stream. */
    method ConnectionLost()
      requires Valid() && coming == []
      modifies this`eof, this`error
      ensures Valid() && eof && error == reset
    {
      eof, error := true, reset;
    }

    /** At most `size` bytes; none only once the upstream has closed, in whatever way. */
    method Read(size: nat) returns (data: bytes)
      requires Valid() && size > 0
      modifies this
      ensures Valid() && (data == [] ==> eof)
      ensures |data| <= size && old(Stream()) == data + Stream()
      ensures data == [] <==> old(Stream()) == []
    {
      Arrive(0);
      while buffer == []
        invariant Valid() && Stream() == old(Stream())
        decreases Pending()
      {
        if eof {
          return [];
        }
        Arrive(1);
      }
      var take := if size < |buffer| then size else |buffer|;
      data := buffer[..take];
      buffer := buffer[take..];
      assert data + buffer == old(Stream())[..|data + buffer|] by {
        assert data + buffer + Flat(coming) == old(Stream());
      }
      ConcatAssoc(data, buffer, Flat(coming));
    }

    /** The bytes through the first empty line, unless there are too many of them or the
        upstream closes first.  The loop goes round only after another arrival. */
    method ReadLineBlock(limit: nat) returns (block: Option<bytes>)
      requires Valid()
      modifies this
      ensures Valid()
      ensures match Head.FindEnd(old(Stream()))
              case None => block.None?
              case Some(i) => if i + 4 > limit then block.None?
                              else block == Some(old(Stream())[..i + 4]) && Stream() == old(Stream())[i + 4..]
    {
      Arrive(0);
      while true
        invariant Valid() && Stream() == old(Stream())
        decreases Pending()
      {
        var index := Head.FindEnd(buffer);
        if index.Some? {
          Head.FindEndStays(buffer, Flat(coming));
          var end := index.value + 4;
          if end > limit {
            return None;
          }
          assert Stream()[..end] == buffer[..end] && Stream()[end..] == buffer[end..] + Flat(coming);
          block := Some(buffer[..end]);
          buffer := buffer[end..];
          return;
        }
        if Head.FindEnd(Stream()).Some? {
          Head.FindEndLater(buffer, Flat(coming));
        }
        if |buffer| > limit {
          return None;
        }
        if eof {
          assert buffer + Flat(coming) == buffer;
          return None;
        }
        Arrive(1);
      }
    }
  }
}
