/** The contract of the foreign decompressors, zlib's inflate and liblzma's lzma_code: deterministic step functions. */
module Decoders {
  import opened Bytes

  /** A decoder's private state, as an opaque memory image. */
  type Memory = seq<int>

  /** Z_OK / LZMA_OK, Z_STREAM_END / LZMA_STREAM_END, and every other return value. */
  datatype Code = Ok | End | Fail

  datatype Step = Step(mem: Memory, consumed: nat, produced: seq<byte>, code: Code)

  /** `step(mem, chunk, room, finish)` is one call with `chunk` as the visible input and `room` bytes of output space;
      `finish` says that no further input will come. `rank` bounds the work a decoder can do without input. */
  datatype Decoder = Decoder(start: Memory, rank: Memory -> nat, step: (Memory, seq<byte>, nat, bool) -> Step)

  // ----- what every call of either library obeys, on any input -----

  ghost predicate Obeys(d: Decoder, mem: Memory, chunk: seq<byte>, room: nat, finish: bool) {
    var s := d.step(mem, chunk, room, finish);
    && s.consumed <= |chunk|
    && |s.produced| <= room
    && (s.consumed == 0 ==> d.rank(s.mem) <= d.rank(mem))
    && (s.consumed == 0 && (s.code == Ok || s.produced != []) ==> d.rank(s.mem) < d.rank(mem))
  }

  /** Calls stay inside their buffers, and without input a decoder can go on only finitely often. */
  ghost predicate Lawful(d: Decoder) {
    forall mem, chunk, room, finish {:trigger d.step(mem, chunk, room, finish)} ::
      room > 0 ==> Obeys(d, mem, chunk, room, finish)
  }

  lemma StepInBounds(d: Decoder, mem: Memory, chunk: seq<byte>, room: nat, finish: bool)
    requires Lawful(d) && room > 0
    ensures d.step(mem, chunk, room, finish).consumed <= |chunk|
    ensures |d.step(mem, chunk, room, finish).produced| <= room
  {
  }

  /** The decoder answers every further call with the same code and no effect. */
  ghost predicate Latched(d: Decoder, mem: Memory, code: Code) {
    forall chunk, room {:trigger d.step(mem, chunk, room, false)} ::
      chunk != [] && room > 0 ==> d.step(mem, chunk, room, false) == Step(mem, 0, [], code)
  }

  /** inflate keeps returning Z_STREAM_END after the end of a member, and an error after an error. */
  ghost predicate Latching(d: Decoder) {
    forall mem, chunk, room {:trigger d.step(mem, chunk, room, false)} ::
      var s := d.step(mem, chunk, room, false);
      chunk != [] && room > 0 && s.code != Ok ==> Latched(d, s.mem, s.code)
  }

  // ----- what a correct decoder does on well-formed input -----

  /** `encodes(mem, r, o)`: in state mem, the compressed bytes r still to come decode to o. */
  type Encoding = (Memory, seq<byte>, seq<byte>) -> bool

  ghost predicate Comparable<T>(a: seq<T>, b: seq<T>) {
    a <= b || b <= a
  }

  /** One inflate call on a member r: it never fails, hands out o in order, and ends exactly with the last byte of the
      trailer, which it leaves unread while output is pending (section 2.3 of RFC 1952). */
  ghost predicate AdvancesMember(d: Decoder, encodes: Encoding, mem: Memory, r: seq<byte>, o: seq<byte>,
                                 chunk: seq<byte>, room: nat) {
    var s := d.step(mem, chunk, room, false);
    && s.consumed <= |r| && s.produced <= o
    && (s.code == Ok ==> s.consumed < |r| && encodes(s.mem, r[s.consumed..], o[|s.produced|..]))
    && (s.code == End ==> s.consumed == |r| && s.produced == o)
    && s.code != Fail
  }

  /** inflate on gzip members, however much of one it is shown, and whatever follows it. */
  ghost predicate DecodesMembers(d: Decoder, encodes: Encoding) {
    forall mem, r, o, chunk, room {:trigger encodes(mem, r, o), d.step(mem, chunk, room, false)} ::
      encodes(mem, r, o) && chunk != [] && room > 0 && Comparable(chunk, r) ==>
        AdvancesMember(d, encodes, mem, r, o, chunk, room)
  }

  /** One lzma_code call on a file r. It ends only under LZMA_FINISH and only if what it is shown is a file already, as
      when r is several streams and the input stops between two of them; it fails only if the file is cut. */
  ghost predicate AdvancesFile(d: Decoder, encodes: Encoding, mem: Memory, r: seq<byte>, o: seq<byte>,
                               chunk: seq<byte>, room: nat, finish: bool) {
    var s := d.step(mem, chunk, room, finish);
    && s.consumed <= |chunk| && s.consumed <= |r| && s.produced <= o
    && (s.code == Ok ==> encodes(s.mem, r[s.consumed..], o[|s.produced|..]))
    && (s.code == End ==> finish && s.consumed == |chunk| && encodes(mem, chunk, s.produced))
    && (s.code == End && chunk == r ==> s.produced == o)
    && (s.code == Fail ==> finish && chunk != r)
  }

  /** lzma_code with LZMA_CONCATENATED on whole files. */
  ghost predicate DecodesFiles(d: Decoder, encodes: Encoding) {
    forall mem, r, o, chunk, room, finish {:trigger encodes(mem, r, o), d.step(mem, chunk, room, finish)} ::
      encodes(mem, r, o) && room > 0 && chunk <= r && (chunk != [] || finish) ==>
        AdvancesFile(d, encodes, mem, r, o, chunk, room, finish)
  }

  /** One lzma_code call on any bytes: it ends with what it was shown being a file, and whatever completes its new state
      to a file completes the old one with the bytes consumed in front. */
  ghost predicate Accepts(d: Decoder, encodes: Encoding, mem: Memory, chunk: seq<byte>, room: nat, finish: bool) {
    var s := d.step(mem, chunk, room, finish);
    && (s.code == End ==> finish && encodes(mem, chunk, s.produced))
    && (s.code == Ok && s.consumed <= |chunk| ==>
          forall r, o {:trigger encodes(s.mem, r, o)} ::
            encodes(s.mem, r, o) ==> encodes(mem, chunk[..s.consumed] + r, s.produced + o))
  }

  /** lzma_code reaches the end of well-formed files only. */
  ghost predicate Recognises(d: Decoder, encodes: Encoding) {
    forall mem, chunk, room, finish {:trigger d.step(mem, chunk, room, finish)} ::
      room > 0 && (chunk != [] || finish) ==> Accepts(d, encodes, mem, chunk, room, finish)
  }

  /** What LZMA_CONCATENATED adds: one file behind another is a file. */
  ghost predicate Concatenates(d: Decoder, encodes: Encoding) {
    forall r1, o1, r2, o2 {:trigger encodes(d.start, r1, o1), encodes(d.start, r2, o2)} ::
      encodes(d.start, r1, o1) && encodes(d.start, r2, o2) ==> encodes(d.start, r1 + r2, o1 + o2)
  }
}
