/** The input side that both decompressing stream buffers share: inputBuffer_ over inputStream_, with next_in and
    avail_in of the library's stream structure. */
module ReadAheads {
  import opened Bytes
  import opened FileStreams

  const BUFFER_SIZE: nat := 4096

  class ReadAhead {
    const input: FileStream
    const buffer: array<byte>
    ghost const Repr: set<object>

    /** next_in, as an offset into the buffer. */
    var nextIn: nat
    var availIn: nat

    /** Bytes the decoder has taken in all. */
    ghost var consumed: nat

    /** What was read from the stream is consumed or still waiting in the buffer, not overwritten. */
    ghost predicate Valid()
      reads this, input, buffer
    {
      && Repr == {this, input, buffer}
      && input.Valid()
      && buffer.Length == 4096 && nextIn + availIn <= BUFFER_SIZE
      && input.pos == consumed + availIn
      && buffer[nextIn..nextIn + availIn] == input.bytes[consumed..input.pos]
    }

    /** Input read but not consumed. */
    function Unread(): (u: seq<byte>)
      requires Valid()
      reads this, input, buffer
      ensures |u| == availIn
    {
      buffer[nextIn..nextIn + availIn]
    }

    ghost function Rest(): seq<byte>
      requires Valid()
      reads this, input, buffer
    {
      input.Rest()
    }

    constructor (input: FileStream)
      requires input.Valid() && input.pos == 0
      ensures Valid() && this.input == input && fresh(this) && fresh(buffer) && Repr == {this, input, buffer}
      ensures Unread() == [] && Rest() == input.bytes && consumed == 0
    {
      this.input := input;
      var b := new byte[BUFFER_SIZE];
      buffer := b;
      nextIn, availIn, consumed := 0, 0, 0;
      Repr := {this, input, b};
    }

    /** Reading the next block when nothing is left of the last one. */
    method Fill()
      requires Valid() && availIn == 0
      modifies this, input, buffer
      ensures Valid() && availIn == Min(BUFFER_SIZE, |old(Rest())|)
      ensures Unread() == old(Rest())[..availIn] && Rest() == Skip(old(Rest()), availIn)
      ensures consumed == old(consumed)
      ensures old(input.Good()) ==> input.eofbit == input.failbit == (|old(Rest())| < BUFFER_SIZE)
    {
      nextIn := 0;
      availIn := input.Read(buffer, BUFFER_SIZE);
      assert input.bytes[consumed..input.pos] == old(input.Rest())[..availIn];
      assert buffer[0..0 + availIn] == buffer[..availIn];
    }

    /** The decoder has taken n bytes. */
    method Consume(n: nat)
      requires Valid() && n <= availIn
      modifies this
      ensures Valid() && availIn == old(availIn) - n && consumed == old(consumed) + n
      ensures Unread() == Skip(old(Unread()), n) && Rest() == old(Rest()) && unchanged(input)
    {
      DropFront(buffer[..], nextIn, nextIn + n, nextIn + availIn);
      DropFront(input.bytes, consumed, consumed + n, input.pos);
      nextIn, availIn, consumed := nextIn + n, availIn - n, consumed + n;
    }

    /** Seeking back over what was not consumed. */
    method GiveBack()
      requires Valid()
      modifies this, input
      ensures Valid() && availIn == 0 && Unread() == []
      ensures Rest() == old(Unread()) + old(Rest()) && consumed == old(consumed)
    {
      assert input.bytes[consumed..] == input.bytes[consumed..input.pos] + input.bytes[input.pos..];
      if availIn > 0 {
        input.ClearAndSeekBack(availIn);
        availIn := 0;
      }
    }
  }
}
