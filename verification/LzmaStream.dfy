/** LZMADecompressStreamBuffer: buffers, flags, and the protocol of its calls to lzma_code. */
module LzmaStreams {
  import opened Bytes
  import opened Decoders
  import opened FileStreams
  import opened ReadAheads
  import opened LzmaPump

  /** One call of lzma_code: its action, avail_in before and after. */
  datatype Call = Call(finish: bool, availIn: nat, left: nat)

  /** What liblzma demands of its caller: LZMA_FINISH is never taken back, input left over is presented again in full
      and input is never added after LZMA_FINISH; LZMA_RUN is never called without input. */
  ghost predicate Protocol(calls: seq<Call>) {
    && (forall i :: 0 <= i < |calls| ==> calls[i].left <= calls[i].availIn && (calls[i].finish || calls[i].availIn > 0))
    && (forall i, j :: 0 <= i < j < |calls| && calls[i].finish ==> calls[j].finish && calls[j].availIn <= calls[i].left)
    && (forall i, j :: 0 <= i < j < |calls| && j == i + 1 && (calls[i].left > 0 || calls[i].finish) ==>
          calls[j].availIn == calls[i].left)
  }

  /** The calls so far obey the protocol, and go on doing so with `len` bytes of input, finishing if `done`. */
  ghost predicate InStep(calls: seq<Call>, done: bool, len: nat) {
    && Protocol(calls)
    && (calls != [] ==>
        var last := calls[|calls| - 1];
        (last.finish ==> done) && (last.left > 0 || last.finish ==> len == last.left))
  }

  lemma CallGoesOn(calls: seq<Call>, done: bool, len: nat, left: nat)
    requires InStep(calls, done, len) && left <= len && (len == 0 ==> done)
    ensures InStep(calls + [Call(done, len, left)], done, left)
  {
    var c := Call(done, len, left);
    var all := calls + [c];
    forall i, j | 0 <= i < j < |all| && all[i].finish
      ensures all[j].finish && all[j].availIn <= all[i].left
    {
      if j == |calls| && i < |calls| - 1 {
        assert calls[|calls| - 1].availIn <= calls[i].left;
      }
    }
  }

  /** Reading more input when there is none left, before the end of the input was seen. */
  lemma FeedGoesOn(calls: seq<Call>, done: bool, len: nat)
    requires InStep(calls, false, 0)
    ensures InStep(calls, done, len)
  {
  }

  class LzmaStreamBuffer {
    const decoder: Decoder
    const source: ReadAhead
    const outputBuffer: array<byte>
    ghost const Repr: set<object>

    var inputLength: nat
    var outputLength: nat
    var inputDone: bool
    var outputDone: bool
    var mem: Memory

    // the get area, as offsets into outputBuffer
    var gptr: nat
    var egptr: nat

    ghost var calls: seq<Call>
    ghost var threw: bool

    /** inputLength_ is avail_in, and inputDone_ is the end of the input stream. */
    ghost predicate Sound()
      reads this`inputLength, this`inputDone, source, source.input, source.buffer
    {
      && source.Valid()
      && inputLength == source.availIn
      && inputDone == source.input.eofbit == source.input.failbit
    }

    ghost function X(): Decoding
      requires Sound()
      reads this`inputLength, this`inputDone, this`mem, this`outputDone, source, source.input, source.buffer
    {
      Decoding(mem, source.Unread(), source.Rest(), inputDone, outputDone)
    }

    /** After an exception nothing but the pointers and the protocol is promised. */
    ghost predicate Valid()
      reads this, source, source.input, source.buffer, outputBuffer
    {
      && Repr == {this, outputBuffer} + source.Repr && source.Repr == {source, source.input, source.buffer}
      && outputBuffer.Length == 4096 && outputBuffer != source.buffer && gptr <= egptr <= 4096
      && Lawful(decoder)
      && Protocol(calls)
      && (threw ==> gptr == egptr)
      && (!threw ==> Sound() && InStep(calls, inputDone, inputLength))
    }

    /** Everything still to be delivered, and whether that ends in an exception. */
    ghost function Remaining(): Delivery
      requires Valid()
      reads this, source, source.input, source.buffer, outputBuffer
    {
      SoundFacts();
      if threw then Delivery([], true)
      else
        var more := Deliver(decoder, X());
        Delivery(outputBuffer[gptr..egptr] + more.bytes, more.threw)
    }

    lemma SoundFacts()
      ensures Sound() ==> Consistent(X()) && X().outputDone == outputDone && X().inputDone == inputDone
      ensures Sound() ==> |X().avail| == inputLength
    {
    }

    constructor (decoder: Decoder, input: FileStream)
      requires Lawful(decoder) && input.Valid() && input.pos == 0 && input.Good()
      ensures Valid() && this.decoder == decoder && source.input == input && fresh(Repr - {input})
      ensures Repr == {this, outputBuffer, source, source.input, source.buffer}
      ensures Remaining() == Deliver(decoder, Start(decoder, input.bytes))
      ensures calls == [] && !threw
    {
      hide Deliver, Lawful, Protocol, InStep, ReadAhead.Valid, ReadAhead.Unread, ReadAhead.Rest;
      this.decoder := decoder;
      var s := new ReadAhead(input);
      var o := new byte[BUFFER_SIZE];
      source, outputBuffer := s, o;
      inputLength, outputLength, inputDone, outputDone := 0, 0, false, false;
      mem := decoder.start;
      gptr, egptr := 0, 0;
      calls, threw := [], false;
      Repr := {this, o} + s.Repr;
      new;
      assert source.Valid() && inputLength == source.availIn && outputBuffer[gptr..egptr] == [];
      assert X() == Start(decoder, input.bytes);
      NoCalls();
      NothingAhead(Deliver(decoder, X()).bytes);
    }

    /** The read at the top of the loop. */
    method FeedInput()
      requires Sound() && InStep(calls, inputDone, inputLength)
      modifies this`inputLength, this`inputDone, source, source.input, source.buffer
      ensures Sound() && InStep(calls, inputDone, inputLength)
      ensures X() == Feed(old(X()))
    {
      hide InStep, Lawful, Skip;
      if inputLength == 0 && !inputDone {
        source.Fill();
        inputLength := source.availIn;
        inputDone := source.input.eofbit;
        FeedGoesOn(calls, inputDone, inputLength);
      }
    }

    method Write(bytes: seq<byte>)
      requires |bytes| <= outputBuffer.Length
      modifies outputBuffer
      ensures outputBuffer[..|bytes|] == bytes
    {
      forall i | 0 <= i < |bytes| {
        outputBuffer[i] := bytes[i];
      }
    }

    /** lzma_code itself: its effects on xzStream_ and the output buffer. */
    method Decode() returns (s: Step)
      requires source.Valid() && InStep(calls, inputDone, source.availIn) && (source.availIn == 0 ==> inputDone)
      requires Lawful(decoder) && outputBuffer.Length == BUFFER_SIZE && outputBuffer != source.buffer
      modifies this`calls, this`mem, source, outputBuffer
      ensures source.Valid() && InStep(calls, inputDone, source.availIn)
      ensures s == decoder.step(old(mem), old(source.Unread()), BUFFER_SIZE, inputDone) && mem == s.mem
      ensures s.consumed <= old(source.availIn) && source.Unread() == Skip(old(source.Unread()), s.consumed)
      ensures source.Rest() == old(source.Rest()) && unchanged(source.input)
      ensures |s.produced| <= BUFFER_SIZE && outputBuffer[..|s.produced|] == s.produced
    {
      hide InStep, Lawful, Skip;
      StepInBounds(decoder, mem, source.Unread(), BUFFER_SIZE, inputDone);
      s := decoder.step(mem, source.Unread(), BUFFER_SIZE, inputDone);
      CallGoesOn(calls, inputDone, source.availIn, source.availIn - s.consumed);
      calls := calls + [Call(inputDone, source.availIn, source.availIn - s.consumed)];
      mem := s.mem;
      Write(s.produced);
      source.Consume(s.consumed);
    }

    /** setg over the first n bytes of the output buffer. */
    method SetOutput(n: nat)
      modifies this`outputLength, this`gptr, this`egptr
      ensures gptr == 0 && egptr == outputLength == n
    {
      outputLength, gptr, egptr := n, 0, n;
    }

    /** What follows lzma_code; the result says whether it threw. */
    method CodeOnce() returns (thrown: bool)
      requires Sound() && InStep(calls, inputDone, inputLength) && (inputLength == 0 ==> inputDone) && !threw
      requires Lawful(decoder) && outputBuffer.Length == BUFFER_SIZE && outputBuffer != source.buffer
      modifies this, source, outputBuffer
      ensures threw == thrown == RunCoder(decoder, old(X())).threw
      ensures Protocol(calls)
      ensures !thrown ==> Sound() && InStep(calls, inputDone, inputLength)
      ensures !thrown ==> X() == RunCoder(decoder, old(X())).next
      ensures !thrown ==> gptr == 0 && egptr == outputLength == |RunCoder(decoder, old(X())).out|
      ensures !thrown ==> outputBuffer[..outputLength] == RunCoder(decoder, old(X())).out
      ensures thrown ==> gptr == old(gptr) && egptr == old(egptr) && outputLength == old(outputLength)
    {
      hide InStep, Protocol, Lawful, RunCoder, Skip, ReadAhead.Valid, ReadAhead.Unread, ReadAhead.Rest;
      SoundFacts();
      ghost var x := X();
      var s := Decode();
      CoderIs(decoder, x, s);
      InStepProtocol(calls, inputDone, source.availIn);
      if s.code != Ok && s.code != End {
        threw := true;
        return true;
      }
      SetOutput(|s.produced|);
      inputLength := source.availIn;
      outputDone := outputDone || s.code == End;
      return false;
    }

    /** The loop of underflow. */
    method PumpOut() returns (thrown: bool)
      requires Sound() && InStep(calls, inputDone, inputLength) && !threw && !outputDone && gptr == egptr <= BUFFER_SIZE
      requires Lawful(decoder) && outputBuffer.Length == BUFFER_SIZE && outputBuffer != source.buffer && Consistent(X())
      modifies this, source, source.input, source.buffer, outputBuffer
      ensures threw == thrown == Pump(decoder, old(X())).threw
      ensures Protocol(calls)
      ensures !thrown ==> Sound() && InStep(calls, inputDone, inputLength) && X() == Pump(decoder, old(X())).next
      ensures gptr <= egptr <= BUFFER_SIZE
      ensures !thrown ==> outputBuffer[gptr..egptr] == Pump(decoder, old(X())).out
      ensures if !thrown && outputLength > 0 then gptr == 0 && egptr == outputLength else gptr == egptr
      ensures !thrown && outputLength == 0 ==> outputDone
    {
      hide InStep, Protocol, Lawful, Sound, X, Pump, RunCoder, Feed, Left, Skip;
      SoundFacts();
      InStepProtocol(calls, inputDone, inputLength);
      ghost var end := Pump(decoder, X());
      outputLength := 0;
      while !outputDone && outputLength == 0
        invariant Sound() && InStep(calls, inputDone, inputLength) && !threw && Protocol(calls)
        invariant egptr <= BUFFER_SIZE
        invariant if outputLength == 0 then gptr == egptr else gptr == 0 && egptr == outputLength
        invariant Consistent(X()) && X().outputDone == outputDone
        invariant outputLength == 0 && !outputDone ==> Pump(decoder, X()) == end
        invariant outputLength > 0 || outputDone ==> end == Turn(X(), outputBuffer[gptr..egptr], false)
        decreases Left(X()), !X().inputDone, decoder.rank(X().mem), !outputDone
      {
        PumpStep(decoder, X());
        FeedKeeps(X());
        FeedInput();
        SoundFacts();
        thrown := CodeOnce();
        if thrown {
          return;
        }
        SoundFacts();
      }
      thrown := false;
    }

    /** underflow: the next byte, -1 at the end, or an exception. It always returns. */
    method Underflow() returns (c: int, thrown: bool)
      requires Valid() && !threw && gptr == egptr
      modifies this, source, source.input, source.buffer, outputBuffer
      ensures Valid() && Remaining() == old(Remaining()) && threw == thrown
      ensures if Remaining().bytes != [] then !thrown && gptr < egptr && c == Remaining().bytes[0]
              else thrown == Remaining().threw && (!thrown ==> c == -1)
      ensures old(outputDone) ==> outputDone && c == -1
    {
      hide InStep, Protocol, Lawful, Sound, X, Pump, Skip;
      SoundFacts();
      c, thrown := -1, false;
      ghost var x := X();
      NothingAhead(Deliver(decoder, x).bytes);
      if outputDone {
        DoneDeliversNothing(decoder, x);
        return;
      }
      thrown := PumpOut();
      SoundFacts();
      if thrown {
        return;
      }
      if outputLength > 0 {
        c := outputBuffer[0];
      } else {
        DoneDeliversNothing(decoder, X());
      }
    }

    /** Copying k bytes out of the get area and moving gptr past them. */
    method Take(k: nat) returns (bytes: seq<byte>)
      requires Valid() && k <= egptr - gptr
      modifies this`gptr
      ensures Valid() && |bytes| == k && gptr == old(gptr) + k && threw == old(threw)
      ensures old(Remaining()).bytes == bytes + Remaining().bytes && Remaining().threw == old(Remaining()).threw
    {
      hide Lawful, Deliver, InStep, Protocol, Sound, X;
      SoundFacts();
      SliceJoin(outputBuffer[..], gptr, gptr + k, egptr);
      bytes := outputBuffer[gptr..gptr + k];
      gptr := gptr + k;
      if !threw {
        Associative(bytes, outputBuffer[gptr..egptr], Deliver(decoder, X()).bytes);
      }
    }
  }

  lemma NoCalls()
    ensures Protocol([]) && InStep([], false, 0)
  {
  }

  lemma InStepProtocol(calls: seq<Call>, done: bool, len: nat)
    requires InStep(calls, done, len)
    ensures Protocol(calls)
  {
  }
}
