/** std::istream over a decompressing stream buffer, and FileReader, which picks the stream to read from. */
module FileReaders {
  import opened Bytes
  import opened Decoders
  import opened FileStreams
  import GZipRefill
  import opened GZipStreams
  import LzmaPump
  import opened LzmaStreams

  /** A file on disk; the suffix of its name decides how it is read. */
  datatype DiskFile = Missing | Plain(bytes: seq<byte>) | GZip(bytes: seq<byte>) | Xz(bytes: seq<byte>)

  /** The two foreign libraries. */
  datatype Codecs = Codecs(inflate: Decoder, lzma: Decoder)

  ghost predicate Usable(c: Codecs) {
    Lawful(c.inflate) && Latching(c.inflate) && Lawful(c.lzma)
  }

  /** What reading the file delivers, and whether it ends without ever reporting end of file. */
  datatype Content = Content(bytes: seq<byte>, neverEof: bool)

  function ContentOf(f: DiskFile, c: Codecs): Content
    requires Usable(c)
  {
    match f
    case Missing => Content([], true)
    case Plain(bytes) => Content(bytes, false)
    case GZip(bytes) => Content(GZipRefill.Inflated(c.inflate, GZipRefill.Start(c.inflate, bytes)), false)
    case Xz(bytes) =>
      var d := LzmaPump.Deliver(c.lzma, LzmaPump.Start(c.lzma, bytes));
      Content(d.bytes, d.threw)
  }

  /** An istream whose buffer is one of the two decompressors; read() dispatches on it as a virtual call would. */
  class DecodedStream {
    const gzip: GZipStreamBuffer?
    const lzma: LzmaStreamBuffer?
    ghost const Repr: set<object>

    var eofbit: bool
    var failbit: bool
    var badbit: bool

    /** One buffer, valid and wholly owned. */
    ghost predicate Wired()
      reads Repr - {this}
    {
      && this in Repr
      && (gzip != null ==>
            && lzma == null
            && {gzip, gzip.source, gzip.source.input, gzip.source.buffer, gzip.outputBuffer} <= Repr - {this}
            && gzip.Valid())
      && (gzip == null ==>
            && lzma != null
            && {lzma, lzma.source, lzma.source.input, lzma.source.buffer, lzma.outputBuffer} <= Repr - {this}
            && lzma.Valid())
    }

    /** What the stream buffer still delivers. */
    ghost function Buffered(): seq<byte>
      requires Wired()
      reads Repr - {this}
    {
      if gzip != null then gzip.Remaining() else lzma.Remaining().bytes
    }

    /** Reading ends in an exception, which read() turns into badbit without eofbit. */
    ghost predicate Throws()
      requires Wired()
      reads Repr - {this}
    {
      gzip == null && lzma.Remaining().threw
    }

    ghost predicate Thrown()
      requires Wired()
      reads Repr - {this}
    {
      gzip == null && lzma.threw
    }

    predicate Good()
      reads this
    {
      !eofbit && !failbit && !badbit
    }

    ghost predicate Valid()
      reads this, Repr
    {
      && this in Repr && Wired()
      && (!Good() ==> Buffered() == [] && eofbit == !Throws())
      && (badbit ==> !eofbit) && (Thrown() ==> badbit)
    }

    constructor OverGZip(c: Codecs, input: FileStream)
      requires Usable(c) && input.Valid() && input.pos == 0
      ensures Valid() && Good() && fresh(Repr - {input})
      ensures Buffered() == ContentOf(GZip(input.bytes), c).bytes && !Throws()
    {
      hide GZipStreamBuffer.Valid, GZipStreamBuffer.Remaining, LzmaStreamBuffer.Valid, LzmaStreamBuffer.Remaining,
        Lawful, Latching;
      var g := new GZipStreamBuffer(c.inflate, input);
      gzip, lzma := g, null;
      eofbit, failbit, badbit := false, false, false;
      Repr := {this} + g.Repr;
    }

    constructor OverLzma(c: Codecs, input: FileStream)
      requires Usable(c) && input.Valid() && input.pos == 0 && input.Good()
      ensures Valid() && Good() && fresh(Repr - {input})
      ensures Buffered() == ContentOf(Xz(input.bytes), c).bytes && Throws() == ContentOf(Xz(input.bytes), c).neverEof
    {
      hide GZipStreamBuffer.Valid, GZipStreamBuffer.Remaining, LzmaStreamBuffer.Valid, LzmaStreamBuffer.Remaining,
        Lawful, Latching;
      var l := new LzmaStreamBuffer(c.lzma, input);
      gzip, lzma := null, l;
      eofbit, failbit, badbit := false, false, false;
      Repr := {this} + l.Repr;
    }

    /** The size of the get area. */
    function InAvail(): (n: nat)
      requires Wired()
      reads Repr - {this}
      ensures n <= |Buffered()|
    {
      if gzip != null then gzip.egptr - gzip.gptr else lzma.egptr - lzma.gptr
    }

    method Take(k: nat) returns (bytes: seq<byte>)
      requires Wired() && k <= InAvail()
      modifies Repr - {this}
      ensures Wired() && |bytes| == k && InAvail() == old(InAvail()) - k
      ensures old(Buffered()) == bytes + Buffered() && Throws() == old(Throws()) && Thrown() == old(Thrown())
    {
      hide GZipStreamBuffer.Valid, GZipStreamBuffer.Remaining, LzmaStreamBuffer.Valid, LzmaStreamBuffer.Remaining;
      if gzip != null {
        bytes := gzip.Take(k);
      } else {
        bytes := lzma.Take(k);
      }
    }

    method Underflow() returns (c: int, thrown: bool)
      requires Wired() && InAvail() == 0 && !Thrown()
      modifies Repr - {this}
      ensures Wired() && Buffered() == old(Buffered()) && Throws() == old(Throws()) && Thrown() == thrown
      ensures thrown ==> Throws() && Buffered() == []
      ensures !thrown ==> if Buffered() == [] then c == -1 && !Throws() else InAvail() > 0 && c == Buffered()[0]
    {
      hide GZipStreamBuffer.Valid, GZipStreamBuffer.Remaining, LzmaStreamBuffer.Valid, LzmaStreamBuffer.Remaining;
      thrown := false;
      if gzip != null {
        c := gzip.Underflow();
      } else {
        c, thrown := lzma.Underflow();
      }
    }

    /** streambuf::xsgetn: copy what the get area holds, call underflow when it is empty, take the byte it shows. */
    method CopyOut(buf: array<byte>, n: nat) returns (got: nat, thrown: bool)
      requires Wired() && !Thrown() && buf !in Repr && n <= buf.Length
      modifies Repr - {this}, buf
      ensures Wired() && got <= n && Throws() == old(Throws()) && Thrown() == thrown
      ensures old(Buffered()) == buf[..got] + Buffered()
      ensures got < n ==> Buffered() == [] && thrown == Throws()
      ensures got == n ==> !thrown
    {
      hide Wired, Buffered, Throws, Thrown, InAvail;
      got, thrown := 0, false;
      NothingAhead(Buffered());
      while got < n
        invariant Wired() && got <= n && Throws() == old(Throws()) && !Thrown() && !thrown
        invariant old(Buffered()) == buf[..got] + Buffered()
      {
        var len := Min(InAvail(), n - got);
        if len > 0 {
          got := Move(buf, got, len);
        }
        if got < n {
          var c;
          c, thrown := Underflow();
          if c < 0 || thrown {
            return;
          }
          got := Move(buf, got, 1);
        }
      }
    }

    /** Moving k bytes from the get area into the caller's buffer. */
    method Move(buf: array<byte>, at: nat, k: nat) returns (end: nat)
      requires Wired() && k <= InAvail() && buf !in Repr && at + k <= buf.Length
      modifies Repr - {this}, buf
      ensures Wired() && InAvail() == old(InAvail()) - k && end == at + k
      ensures Throws() == old(Throws()) && Thrown() == old(Thrown())
      ensures old(buf[..at] + Buffered()) == buf[..end] + Buffered()
    {
      hide Wired, Buffered, Throws, Thrown, InAvail;
      ghost var head := buf[..at];
      var bytes := Take(k);
      Store(buf, at, bytes);
      end := at + k;
      Associative(head, bytes, Buffered());
    }

    /** istream::read followed by gcount. An exception sets badbit and counts nothing; a short read sets eofbit. */
    method Read(buf: array<byte>, n: nat) returns (count: nat)
      requires Valid() && buf !in Repr && n <= buf.Length
      modifies Repr, buf
      ensures Valid() && Throws() == old(Throws())
      ensures n <= |old(Buffered())| && (n > 0 || old(Good())) ==>
                count == n && Good() && buf[..n] == old(Buffered())[..n] && Buffered() == Skip(old(Buffered()), n)
      ensures n > |old(Buffered())| || !old(Good()) ==>
                !Good() && Buffered() == [] && count == if Throws() then 0 else |old(Buffered())|
      ensures n > |old(Buffered())| || !old(Good()) ==> failbit || badbit
    {
      hide Wired, Buffered, Throws, Thrown, Skip;
      if !Good() {
        failbit := true;
        return 0;
      }
      ghost var all := Buffered();
      var got, thrown := CopyOut(buf, n);
      FrontOf(all, buf[..got], Buffered());
      if thrown {
        badbit := true;
        return 0;
      }
      if got < n {
        eofbit, failbit := true, true;
      }
      count := got;
    }
  }

  /** FileReader: a file stream, and for compressed files a decompressing stream over it, to which all reads go. */
  class FileReader {
    const fileStream: FileStream
    const decodedStream: DecodedStream?
    ghost const content: Content
    ghost const Repr: set<object>

    ghost predicate Valid()
      reads Repr
    {
      && {this, fileStream} <= Repr
      && (decodedStream != null ==> decodedStream in Repr && decodedStream.Repr <= Repr && this !in decodedStream.Repr
                                    && decodedStream.Valid() && decodedStream.Throws() == content.neverEof)
      && (decodedStream == null ==> fileStream.Valid()
                                    && (!fileStream.Good() ==> fileStream.eofbit == !content.neverEof)
                                    && (content.neverEof ==> !fileStream.Good()))
    }

    /** What reading still delivers. */
    ghost function Remaining(): seq<byte>
      requires Valid()
      reads Repr
    {
      if decodedStream != null then decodedStream.Buffered() else fileStream.Rest()
    }

    predicate Good()
      requires Valid()
      reads Repr
    {
      if decodedStream != null then decodedStream.Good() else fileStream.Good()
    }

    predicate Eof()
      requires Valid()
      reads Repr
    {
      if decodedStream != null then decodedStream.eofbit else fileStream.eofbit
    }

    /** `operator bool`: neither failbit nor badbit. */
    predicate Ok()
      requires Valid()
      reads Repr
    {
      if decodedStream != null then !decodedStream.failbit && !decodedStream.badbit else !fileStream.failbit
    }

    /** A stream that is not good has nothing left and reports end of file, unless its content never does. */
    lemma AtTheEnd()
      requires Valid() && !Good()
      ensures Remaining() == [] && (Eof() <==> !content.neverEof)
    {
    }

    constructor Open(f: DiskFile, c: Codecs)
      requires Usable(c)
      ensures Valid() && fresh(Repr) && this in Repr && content == ContentOf(f, c) && Remaining() == content.bytes
      ensures !f.Missing? ==> Good()
      ensures Ok() <==> !f.Missing?
    {
      hide DecodedStream.Wired, DecodedStream.Buffered, DecodedStream.Throws, Usable;
      var s: FileStream;
      if f.Missing? {
        s := new FileStream.Missing();
      } else {
        s := new FileStream.Open(f.bytes);
      }
      var d: DecodedStream? := null;
      if f.GZip? {
        assert f == GZip(s.bytes);
        d := new DecodedStream.OverGZip(c, s);
      } else if f.Xz? {
        assert f == Xz(s.bytes);
        d := new DecodedStream.OverLzma(c, s);
      }
      fileStream, decodedStream, content := s, d, ContentOf(f, c);
      Repr := {this, s} + (if d != null then d.Repr else {});
    }

    /** `file_ = {}`: no file, yet all state bits are clear. */
    constructor Default()
      ensures Valid() && fresh(Repr) && this in Repr && content == Content([], false) && Remaining() == []
      ensures Good() && Ok()
    {
      var s := new FileStream.Default();
      fileStream, decodedStream, content := s, null, Content([], false);
      Repr := {this, s};
    }

    method Read(buf: array<byte>, n: nat) returns (count: nat)
      requires Valid() && buf !in Repr && n <= buf.Length
      modifies Repr, buf
      ensures Valid()
      ensures n <= |old(Remaining())| ==>
                && count == n && buf[..n] == old(Remaining())[..n] && Remaining() == Skip(old(Remaining()), n)
                && Good() == old(Good()) && Eof() == old(Eof())
      ensures n > |old(Remaining())| ==> count < n && Remaining() == [] && !Good()
      ensures n > |old(Remaining())| ==> count == if content.neverEof then 0 else |old(Remaining())|
      ensures n > |old(Remaining())| ==> !Ok()
      ensures 0 < n <= |old(Remaining())| ==> Ok()
    {
      hide DecodedStream.Buffered, DecodedStream.Throws, Skip, FileStream.Rest;
      SkipAll(Remaining());
      if decodedStream != null {
        count := decodedStream.Read(buf, n);
      } else {
        count := fileStream.Read(buf, n);
      }
    }
  }

  method Store(buf: array<byte>, at: nat, bytes: seq<byte>)
    requires at + |bytes| <= buf.Length
    modifies buf
    ensures buf[..at + |bytes|] == old(buf[..at]) + bytes
  {
    forall i | 0 <= i < |bytes| {
      buf[at + i] := bytes[i];
    }
  }
}
