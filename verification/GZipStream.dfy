/** GZipDecompressStreamBuffer: the refill loop over zlib, and a get area with a putback zone in front. */
module GZipStreams {
  import opened Bytes
  import opened Decoders
  import opened FileStreams
  import opened ReadAheads
  import opened GZipRefill

  /** The putback zone holds the bytes taken last, and four of them if as many were taken. */
  ghost predicate LastTaken(area: seq<byte>, taken: seq<byte>) {
    Min(PUTBACK, |taken|) <= |area| <= |taken| && area == taken[|taken| - |area|..]
  }

  lemma NothingTaken()
    ensures LastTaken([], [])
  {
  }

  lemma LastBytes(area: seq<byte>, taken: seq<byte>)
    requires LastTaken(area, taken)
    ensures |area| <= |taken| && area == taken[|taken| - |area|..]
  {
  }

  lemma TakeMore(area: seq<byte>, taken: seq<byte>, more: seq<byte>)
    requires LastTaken(area, taken)
    ensures LastTaken(area + more, taken + more)
  {
  }

  lemma KeepLast(area: seq<byte>, taken: seq<byte>)
    requires LastTaken(area, taken)
    ensures Min(PUTBACK, |area|) == Min(PUTBACK, |taken|)
    ensures LastTaken(Skip(area, |area| - Min(PUTBACK, |area|)), taken)
  {
  }

  // ----- where the get area stands -----

  /** The get area lies in the array as the bytes taken so far say: `before` of them came with earlier refills, all of
      which were full, and at most four of those are kept. */
  ghost predicate Placed(eback: nat, gptr: nat, egptr: nat, total: nat) {
    var before := total + PUTBACK - gptr;
    && PUTBACK <= gptr <= egptr <= BUFFER_SIZE
    && before >= 0 && before % REFILL == 0
    && eback == PUTBACK - Min(PUTBACK, before)
    && (egptr == PUTBACK ==> total == 0)
  }

  /** The two ranges of the memcpy share a byte: each starts before the other ends. */
  ghost predicate Overlaps(eback: nat, gptr: nat)
    requires eback <= gptr
  {
    var count: int := Min(PUTBACK, gptr - eback);
    var from, to: int := gptr - count, PUTBACK - count;
    from < to + count && to < from + count
  }

  /** They do exactly if the stream is longer than one refill and the last refill brought at most three bytes. */
  ghost predicate ShortLastRefill(total: nat) {
    total > 4092 && 1 <= total % 4092 <= 3
  }

  lemma PlacedOverlaps(eback: nat, gptr: nat, total: nat)
    requires Placed(eback, gptr, gptr, total)
    ensures Overlaps(eback, gptr) <==> ShortLastRefill(total)
  {
    var q := (total + PUTBACK - gptr) / REFILL;
    assert total == REFILL * q + (gptr - PUTBACK);
  }

  /** The next refill follows a full one. */
  lemma PlaceRefill(eback: nat, gptr: nat, total: nat, size: nat)
    requires Placed(eback, gptr, gptr, total) && (gptr == BUFFER_SIZE || total == 0)
    requires 0 < size <= REFILL
    ensures Placed(PUTBACK - Min(PUTBACK, gptr - eback), PUTBACK, PUTBACK + size, total)
  {
  }

  lemma PlaceTaken(eback: nat, gptr: nat, egptr: nat, total: nat, k: nat)
    requires Placed(eback, gptr, egptr, total) && k <= egptr - gptr
    ensures Placed(eback, gptr + k, egptr, total + k)
  {
  }

  class GZipStreamBuffer {
    const decoder: Decoder
    const source: ReadAhead
    const outputBuffer: array<byte>
    ghost const Repr: set<object>

    var mem: Memory
    var error: Code

    // the get area, as offsets into outputBuffer
    var eback: nat
    var gptr: nat
    var egptr: nat

    /** All bytes taken from the get area so far. */
    ghost var taken: seq<byte>

    ghost predicate Sound()
      reads source, source.input, source.buffer
    {
      && Repr == {this, outputBuffer} + source.Repr
      && outputBuffer.Length == 4096 && outputBuffer != source.buffer
      && source.Valid()
      && Lawful(decoder) && Latching(decoder)
    }

    /** The decompressor as a value. */
    ghost function Z(): Inflating
      requires Sound()
      reads this`mem, this`error, source, source.input, source.buffer
    {
      Inflating(mem, error, source.Unread(), source.Rest())
    }

    /** The get area stands where the bytes taken so far put it. It is full, or untouched, or the last one; as long as
        there is more to come, the bytes before gptr are the last ones taken, four of them if as many were taken. */
    ghost predicate Valid()
      reads this, source, source.input, source.buffer, outputBuffer
    {
      && Sound()
      && Settled(decoder, Z())
      && Placed(eback, gptr, egptr, |taken|)
      && (egptr == BUFFER_SIZE || Untouched() || Refills(decoder, Z()) == [])
      && (Refills(decoder, Z()) != [] || gptr < egptr ==> LastTaken(outputBuffer[eback..gptr], taken))
    }

    ghost predicate Untouched()
      reads this
    {
      eback == gptr == egptr == PUTBACK && taken == []
    }

    /** Everything still to be delivered. */
    ghost function Remaining(): seq<byte>
      requires Valid()
      reads this, source, source.input, source.buffer, outputBuffer
    {
      outputBuffer[gptr..egptr] + Inflated(decoder, Z())
    }

    constructor (decoder: Decoder, input: FileStream)
      requires Lawful(decoder) && Latching(decoder) && input.Valid() && input.pos == 0
      ensures Valid() && this.decoder == decoder && source.input == input && fresh(Repr - {input})
      ensures Repr == {this, outputBuffer, source, source.input, source.buffer}
      ensures Remaining() == Inflated(decoder, Start(decoder, input.bytes))
      ensures taken == []
    {
      hide Lawful, Latching, Inflated, Refills, LastTaken, ReadAhead.Valid, ReadAhead.Unread, ReadAhead.Rest;
      this.decoder := decoder;
      var s := new ReadAhead(input);
      var o := new byte[BUFFER_SIZE];
      source, outputBuffer := s, o;
      mem, error := decoder.start, Ok;
      eback, gptr, egptr := PUTBACK, PUTBACK, PUTBACK;
      taken := [];
      Repr := {this, o} + s.Repr;
      new;
      assert source.Valid() && outputBuffer[gptr..egptr] == [];
      assert Z() == Start(decoder, input.bytes);
      NothingAhead(Inflated(decoder, Z()));
      NothingTaken();
    }

    lemma SoundFacts()
      requires Sound()
      ensures Lawful(decoder) && Latching(decoder) && source.Valid()
      ensures outputBuffer.Length == BUFFER_SIZE && outputBuffer != source.buffer
      ensures Z().mem == mem && Z().code == error && Z().avail == source.Unread() && Z().rest == source.Rest()
    {
    }

    lemma PlaceFacts()
      requires Valid()
      ensures PUTBACK <= gptr && eback <= gptr <= egptr <= BUFFER_SIZE && Placed(eback, gptr, egptr, |taken|)
    {
    }

    /** The parts of Valid, and what they mean for Remaining. */
    lemma ValidFacts()
      requires Valid()
      ensures Sound() && Settled(decoder, Z())
      ensures egptr == BUFFER_SIZE || Untouched() || Refills(decoder, Z()) == []
      ensures Refills(decoder, Z()) != [] || gptr < egptr ==> LastTaken(outputBuffer[eback..gptr], taken)
      ensures Remaining() == outputBuffer[gptr..egptr] + Inflated(decoder, Z())
    {
    }

    lemma ComesToValid()
      requires Sound() && Settled(decoder, Z()) && Placed(eback, gptr, egptr, |taken|)
      requires egptr == BUFFER_SIZE || Untouched() || Refills(decoder, Z()) == []
      requires Refills(decoder, Z()) != [] || gptr < egptr ==> LastTaken(outputBuffer[eback..gptr], taken)
      ensures Valid() && Remaining() == outputBuffer[gptr..egptr] + Inflated(decoder, Z())
    {
    }

    /** Main result: on an empty get area the memcpy of underflow overlaps exactly when more than one refill was
        delivered and the last one had one, two or three bytes; only a call that reports the end can meet this. */
    lemma EmptyAreaOverlaps()
      requires Valid() && gptr == egptr
      ensures Overlaps(eback, gptr) <==> |taken| > 4092 && 1 <= |taken| % 4092 <= 3
      ensures gptr == BUFFER_SIZE || Untouched() ==> !Overlaps(eback, gptr)
    {
      PlacedOverlaps(eback, gptr, |taken|);
    }

    method Write(at: nat, bytes: seq<byte>)
      requires at + |bytes| <= outputBuffer.Length
      modifies outputBuffer
      ensures outputBuffer[..at + |bytes|] == old(outputBuffer[..at]) + bytes
    {
      forall i | 0 <= i < |bytes| {
        outputBuffer[at + i] := bytes[i];
      }
    }

    /** One call of inflate with next_out at offset `at`. */
    method InflateInto(at: nat, room: nat) returns (n: nat)
      requires Sound() && source.availIn > 0 && room > 0 && at + room <= BUFFER_SIZE
      modifies this`mem, this`error, source, outputBuffer
      ensures Sound() && n <= room
      ensures Z() == Inflate(decoder, old(Z()), room).0
      ensures n == |Inflate(decoder, old(Z()), room).1|
      ensures outputBuffer[..at + n] == old(outputBuffer[..at]) + Inflate(decoder, old(Z()), room).1
    {
      hide Lawful, Latching, Skip;
      StepInBounds(decoder, mem, source.Unread(), room, false);
      var s := decoder.step(mem, source.Unread(), room, false);
      n := |s.produced|;
      Write(at, s.produced);
      mem, error := s.mem, s.code;
      source.Consume(s.consumed);
    }

    /** One round of the loop in unzipFromStream; count is zero only if nothing could be read. */
    method RoundInto(at: nat, room: nat, was: nat) returns (n: nat, count: nat)
      requires Sound() && room > 0 && at + room <= BUFFER_SIZE
      requires Z().avail != [] ==> was > 0
      modifies this`mem, this`error, source, source.input, source.buffer, outputBuffer
      ensures Sound() && n <= room
      ensures Z() == Round(decoder, old(Z()), room).0
      ensures n == |Round(decoder, old(Z()), room).1|
      ensures outputBuffer[..at + n] == old(outputBuffer[..at]) + Round(decoder, old(Z()), room).1
      ensures count == 0 <==> Left(old(Z())) == 0
    {
      hide Lawful, Latching, Inflate, Skip;
      n, count := 0, was;
      if source.availIn == 0 {
        source.Fill();
        count := source.availIn;
      }
      assert Z() == Fill(old(Z()));
      if source.availIn > 0 {
        n := InflateInto(at, room);
      }
    }

    /** The do/while loop of unzipFromStream. */
    method LoopInto(at: nat, size: nat) returns (n: nat)
      requires Sound() && size > 0 && at + size <= BUFFER_SIZE
      modifies this`mem, this`error, source, source.input, source.buffer, outputBuffer
      ensures Sound() && n <= size
      ensures Z() == Loop(decoder, old(Z()), size).0
      ensures n == |Loop(decoder, old(Z()), size).1|
      ensures outputBuffer[..at + n] == old(outputBuffer[..at]) + Loop(decoder, old(Z()), size).1
    {
      hide *;
      SoundFacts();
      ghost var whole := Loop(decoder, Z(), size);
      ghost var kept, done: seq<byte> := outputBuffer[..at], [];
      WholeIsHalfway(decoder, Z(), size);
      var count := source.availIn;
      n := 0;
      var more := true;
      while more
        invariant Sound() && n == |done| <= size
        invariant outputBuffer[..at + n] == kept + done
        invariant more ==> (Z().avail != [] ==> count > 0) && Halfway(decoder, Z(), size - n, done, whole) && n < size
        invariant !more ==> whole == (Z(), done)
        decreases more, Left(Z()), decoder.rank(Z().mem)
      {
        ghost var out;
        n, count, more, out := NextRound(at, size, n, count, kept, done, whole);
        done := done + out;
      }
    }

    /** The loop's body and test: `done` has been delivered so far behind the `kept` bytes, `whole` is what the loop is
        to end in. */
    method NextRound(at: nat, size: nat, n: nat, was: nat, ghost kept: seq<byte>, ghost done: seq<byte>,
                     ghost whole: (Inflating, seq<byte>))
      returns (m: nat, count: nat, more: bool, ghost out: seq<byte>)
      requires Sound() && n == |done| < size && at + size <= BUFFER_SIZE && outputBuffer[..at + n] == kept + done
      requires (Z().avail != [] ==> was > 0) && Halfway(decoder, Z(), size - n, done, whole)
      modifies this`mem, this`error, source, source.input, source.buffer, outputBuffer
      ensures Sound() && m == |done + out| <= size
      ensures outputBuffer[..at + m] == kept + (done + out)
      ensures more ==> (Z().avail != [] ==> count > 0) && Halfway(decoder, Z(), size - m, done + out, whole) && m < size
      ensures !more ==> whole == (Z(), done + out)
      ensures more ==> Left(Z()) <= old(Left(Z()))
      ensures more && Left(Z()) == old(Left(Z())) ==> decoder.rank(Z().mem) < old(decoder.rank(Z().mem))
    {
      hide *;
      SoundFacts();
      out := Round(decoder, Z(), size - n).1;
      LoopStep(decoder, Z(), size - n, done, whole);
      Associative(kept, done, out);
      ghost var front := kept + done;
      var k;
      k, count := RoundInto(at + n, size - n, was);
      assert outputBuffer[..at + n + k] == front + out;
      SoundFacts();
      m := n + k;
      more := error == Ok && m < size && count != 0;
    }

    /** unzipFromStream. */
    method UnzipFromStream(at: nat, size: nat) returns (n: nat)
      requires Sound() && size > 0 && at + size <= BUFFER_SIZE
      modifies this`mem, this`error, source, source.input, source.buffer, outputBuffer
      ensures Sound() && n <= size
      ensures Z() == Unzip(decoder, old(Z()), size).0
      ensures n == |Unzip(decoder, old(Z()), size).1|
      ensures outputBuffer[..at + n] == old(outputBuffer[..at]) + Unzip(decoder, old(Z()), size).1
    {
      hide Lawful, Latching, Loop, Skip;
      n := LoopInto(at, size);
      if error == End {
        source.GiveBack();
      }
    }

    /** memcpy of the last `count` bytes before gptr to the end of the putback zone; if the two overlap, nothing is
        promised about the bytes. */
    method SaveForPutback(count: nat)
      requires outputBuffer.Length == BUFFER_SIZE && PUTBACK <= gptr <= BUFFER_SIZE
      requires eback <= gptr && count == Min(PUTBACK, gptr - eback)
      modifies outputBuffer
      ensures !Overlaps(eback, gptr) ==>
                outputBuffer[PUTBACK - count..PUTBACK] == old(outputBuffer[gptr - count..gptr])
    {
      ghost var last := outputBuffer[gptr - count..gptr];
      forall i | 0 <= i < count {
        outputBuffer[PUTBACK - count + i] := outputBuffer[gptr - count + i];
      }
      assert forall i :: 0 <= i < count ==> outputBuffer[PUTBACK - count + i] == last[i];
      assert forall j :: PUTBACK - count <= j < PUTBACK ==> outputBuffer[j] == last[j - (PUTBACK - count)];
    }

    /** The part of underflow that runs on an empty get area: save, refill, set the get area. */
    method Refill(count: nat) returns (size: nat)
      requires Sound() && PUTBACK <= gptr <= BUFFER_SIZE && eback <= gptr && count == Min(PUTBACK, gptr - eback)
      modifies this, source, source.input, source.buffer, outputBuffer
      ensures Sound() && Z() == old(Unzip(decoder, Z(), REFILL).0)
      ensures size == |old(Unzip(decoder, Z(), REFILL).1)| <= REFILL
      ensures taken == old(taken)
      ensures size == 0 ==> eback == old(eback) && gptr == old(gptr) && egptr == old(egptr)
      ensures size > 0 ==> eback == PUTBACK - count && gptr == PUTBACK && egptr == PUTBACK + size
      ensures size > 0 ==> outputBuffer[gptr..egptr] == old(Unzip(decoder, Z(), REFILL).1)
      ensures size > 0 && !old(Overlaps(eback, gptr)) ==>
                outputBuffer[eback..gptr] == old(outputBuffer[gptr - count..gptr])
    {
      hide Lawful, Latching, Unzip, Sound, Z, Overlaps;
      SoundFacts();
      ghost var z, area := Z(), outputBuffer[gptr - count..gptr];
      SaveForPutback(count);
      ghost var saved := outputBuffer[..PUTBACK];
      assert old(!Overlaps(eback, gptr)) ==> saved[PUTBACK - count..] == area;
      size := UnzipFromStream(PUTBACK, REFILL);
      ghost var out := Unzip(decoder, z, REFILL).1;
      assert outputBuffer[..PUTBACK + size] == saved + out;
      if size > 0 {
        eback, gptr, egptr := PUTBACK - count, PUTBACK, PUTBACK + size;
        SplitAt(outputBuffer[..egptr], saved, out, eback);
        assert outputBuffer[..egptr][eback..gptr] == outputBuffer[eback..gptr];
        assert saved[eback..] == saved[PUTBACK - count..];
      }
    }

    /** underflow: the next byte, or -1 at the end. Nothing is lost or reordered. A refill that succeeds started from a
        full or an untouched get area, and its memcpy did not overlap. */
    method Underflow() returns (c: int)
      requires Valid()
      modifies this, source, source.input, source.buffer, outputBuffer
      ensures Valid() && Remaining() == old(Remaining()) && taken == old(taken)
      ensures if Remaining() == [] then c == -1 else gptr < egptr && c == Remaining()[0]
      ensures Z() == old(if gptr == egptr then Unzip(decoder, Z(), 4092).0 else Z())
      ensures old(gptr == egptr) && c >= 0 ==> old(gptr == 4096 || Untouched())
      ensures old(gptr == egptr) && c >= 0 ==> eback == 4 - Min(4, |taken|) && gptr == 4
      ensures old(gptr == egptr) && c >= 0 ==> outputBuffer[gptr..egptr] == old(Unzip(decoder, Z(), 4092).1)
      ensures old(gptr == egptr) && c >= 0 ==> outputBuffer[eback..gptr] == taken[|taken| - Min(4, |taken|)..]
      ensures old(gptr == egptr) && c >= 0 ==> !old(Overlaps(eback, gptr))
      ensures c < 0 ==> old(gptr == egptr)
      ensures c < 0 ==> (old(Overlaps(eback, gptr)) <==> |taken| > 4092 && 1 <= |taken| % 4092 <= 3)
    {
      hide Lawful, Latching, Unzip, Inflated, Refills, Settled, LastTaken, Sound, Z, Skip, Overlaps, Placed;
      PlaceFacts();
      SoundFacts();
      if gptr < egptr {
        return outputBuffer[gptr];
      }
      c := UnderflowEmpty();
      if c >= 0 {
        LastBytes(outputBuffer[eback..gptr], taken);
      }
    }

    /** The bytes that are saved are the last ones taken, if there is anything more to come. */
    lemma SavesLast(count: nat)
      requires Valid() && gptr == egptr && count == Min(PUTBACK, gptr - eback)
      ensures Refills(decoder, Z()) != [] ==>
                count == Min(PUTBACK, |taken|) && LastTaken(outputBuffer[gptr - count..gptr], taken)
    {
      hide Lawful, Latching, Refills, Settled, LastTaken, Sound, Z, Skip, Placed, Valid;
      PlaceFacts();
      ValidFacts();
      SoundFacts();
      ghost var area := outputBuffer[eback..gptr];
      DropFront(outputBuffer[..], eback, gptr - count, gptr);
      if Refills(decoder, Z()) != [] {
        KeepLast(area, taken);
      }
    }

    /** Saving the putback bytes and refilling an empty get area. */
    method Replenish() returns (size: nat)
      requires Valid() && gptr == egptr
      modifies this, source, source.input, source.buffer, outputBuffer
      ensures Sound() && Settled(decoder, Z()) && taken == old(taken)
      ensures Z() == old(Unzip(decoder, Z(), REFILL).0) && size == |old(Unzip(decoder, Z(), REFILL).1)| <= REFILL
      ensures size < REFILL ==> Refills(decoder, Z()) == []
      ensures old(Overlaps(eback, gptr)) <==> ShortLastRefill(|taken|)
      ensures size == 0 ==> eback == old(eback) && gptr == old(gptr) && egptr == old(egptr)
      ensures size > 0 ==> old(gptr == BUFFER_SIZE || Untouched()) && !old(Overlaps(eback, gptr))
      ensures size > 0 ==> eback == PUTBACK - Min(PUTBACK, |taken|) && gptr == PUTBACK && egptr == PUTBACK + size
      ensures size > 0 ==> outputBuffer[gptr..egptr] == old(Unzip(decoder, Z(), REFILL).1)
      ensures size > 0 ==> LastTaken(outputBuffer[eback..gptr], taken)
    {
      hide Lawful, Latching, Unzip, Inflated, Refills, Settled, LastTaken, Sound, Z, Skip, Overlaps, Placed, Valid,
        Remaining;
      PlaceFacts();
      ValidFacts();
      SoundFacts();
      ghost var z := Z();
      UnzipSettled(decoder, z, REFILL);
      RefillsEmpty(decoder, z);
      var count := gptr - eback;
      if count > PUTBACK {
        count := PUTBACK;
      }
      EmptyAreaOverlaps();
      SavesLast(count);
      size := Refill(count);
      if size < REFILL {
        ShortRefillIsLast(decoder, z);
      }
    }

    /** underflow on an empty get area. */
    method UnderflowEmpty() returns (c: int)
      requires Valid() && gptr == egptr
      modifies this, source, source.input, source.buffer, outputBuffer
      ensures Valid() && Remaining() == old(Remaining()) && taken == old(taken)
      ensures if Remaining() == [] then c == -1 else gptr < egptr && c == Remaining()[0]
      ensures Z() == old(Unzip(decoder, Z(), REFILL).0)
      ensures c >= 0 ==> old(gptr == BUFFER_SIZE || Untouched())
      ensures c >= 0 ==> eback == PUTBACK - Min(PUTBACK, |taken|) && gptr == PUTBACK
      ensures c >= 0 ==> outputBuffer[gptr..egptr] == old(Unzip(decoder, Z(), REFILL).1)
      ensures c >= 0 ==> LastTaken(outputBuffer[eback..gptr], taken)
      ensures c >= 0 ==> !old(Overlaps(eback, gptr))
      ensures c < 0 ==> (old(Overlaps(eback, gptr)) <==> ShortLastRefill(|taken|))
    {
      hide Lawful, Latching, Unzip, Inflated, Refills, Settled, LastTaken, Sound, Z, Skip, Overlaps, Placed, Valid,
        Remaining, ShortLastRefill;
      PlaceFacts();
      ValidFacts();
      SoundFacts();
      ghost var z, place := Z(), (eback, gptr);
      NothingAhead(Inflated(decoder, z));
      InflatedStep(decoder, z);
      RefillsEmpty(decoder, z);
      var size := Replenish();
      if size == 0 {
        RefillsEmpty(decoder, Z());
        ComesToValid();
        NothingAhead(Inflated(decoder, Z()));
        return -1;
      }
      PlaceRefill(place.0, place.1, |taken|, size);
      ComesToValid();
      c := outputBuffer[gptr];
    }

    /** Copying k bytes out of the get area and moving gptr past them. */
    method Take(k: nat) returns (bytes: seq<byte>)
      requires Valid() && k <= egptr - gptr
      modifies this`gptr, this`taken
      ensures Valid() && |bytes| == k && gptr == old(gptr) + k
      ensures old(Remaining()) == bytes + Remaining()
      ensures taken == old(taken) + bytes
    {
      hide Lawful, Latching, Inflated, Refills, Settled, LastTaken, Sound, Z, Placed;
      SoundFacts();
      PlaceFacts();
      PlaceTaken(eback, gptr, egptr, |taken|, k);
      if k == 0 {
        bytes := [];
        NothingAhead(Remaining());
        assert taken + [] == taken;
        return;
      }
      ghost var area := outputBuffer[eback..gptr];
      bytes := outputBuffer[gptr..gptr + k];
      TakeMore(area, taken, bytes);
      SliceJoin(outputBuffer[..], eback, gptr, gptr + k);
      SliceJoin(outputBuffer[..], gptr, gptr + k, egptr);
      gptr := gptr + k;
      taken := taken + bytes;
      Associative(bytes, outputBuffer[gptr..egptr], Inflated(decoder, Z()));
    }
  }

  lemma RefillsEmpty(d: Decoder, z: Inflating)
    requires Lawful(d)
    ensures Refills(d, z) == [] <==> Unzip(d, z, REFILL).1 == []
    ensures Refills(d, z) == [] ==> Inflated(d, z) == []
  {
  }

  /** A caller that asks for the next bytes and takes all it is shown. */
  method ReadMore(s: GZipStreamBuffer) returns (bytes: seq<byte>, ghost overlapped: bool)
    requires s.Valid()
    modifies s, s.source, s.source.input, s.source.buffer, s.outputBuffer
    ensures s.Valid() && old(s.Remaining()) == bytes + s.Remaining() && s.taken == old(s.taken) + bytes
    ensures bytes != [] ==> !overlapped
    ensures bytes == [] ==> s.Remaining() == []
    ensures bytes == [] ==> (overlapped <==> |s.taken| > 4092 && 1 <= |s.taken| % 4092 <= 3)
  {
    hide *;
    s.PlaceFacts();
    ghost var empty := s.gptr == s.egptr;
    overlapped := empty && Overlaps(s.eback, s.gptr);
    var c := s.Underflow();
    if c < 0 {
      NothingAhead(s.Remaining());
      assert s.taken + [] == s.taken;
      return [], overlapped;
    }
    s.PlaceFacts();
    bytes := s.Take(s.egptr - s.gptr);
  }

  /** Reading a whole stream and once past its end yields its decoded bytes, and some call of underflow has overlapped
      exactly when their number says so. */
  method ReadPastEnd(decoder: Decoder, input: FileStream) returns (bytes: seq<byte>, ghost overlapped: bool)
    requires Lawful(decoder) && Latching(decoder) && input.Valid() && input.pos == 0
    modifies input
    ensures bytes == Inflated(decoder, Start(decoder, input.bytes))
    ensures overlapped <==> |bytes| > 4092 && 1 <= |bytes| % 4092 <= 3
  {
    hide Lawful, Latching, Inflated, GZipStreamBuffer.Valid, GZipStreamBuffer.Remaining;
    var s := new GZipStreamBuffer(decoder, input);
    ghost var whole := s.Remaining();
    NothingAhead(whole);
    bytes, overlapped := [], false;
    var more := true;
    while more
      invariant s.Valid() && s.taken == bytes && bytes + s.Remaining() == whole
      invariant {s, s.source, s.source.input, s.source.buffer, s.outputBuffer} == s.Repr
      invariant more ==> !overlapped
      invariant !more ==> s.Remaining() == []
      invariant !more ==> (overlapped <==> |bytes| > 4092 && 1 <= |bytes| % 4092 <= 3)
      decreases more, |s.Remaining()|
    {
      var next;
      next, overlapped := ReadMore(s);
      Associative(bytes, next, s.Remaining());
      bytes := bytes + next;
      more := next != [];
    }
  }
}
