/** Compression makes no difference: what a merge delivers depends on the decoded bytes of its files only. */
module Transparency {
  import opened Bytes
  import opened PcapFormat
  import opened Decoders
  import opened DecoderRuns
  import opened FileReaders
  import opened Drivers
  import SortedMerge
  import GZipRefill
  import LzmaPump

  /** Two libraries that decode their formats correctly. */
  ghost predicate Correct(c: Codecs, gzip: Encoding, xz: Encoding) {
    Usable(c) && DecodesMembers(c.inflate, gzip) && DecodesFiles(c.lzma, xz)
  }

  /** The file holds these bytes: plainly, as the first gzip member in it, or as all its xz streams. */
  ghost predicate Holds(f: DiskFile, bytes: seq<byte>, c: Codecs, gzip: Encoding, xz: Encoding) {
    match f
    case Missing => false
    case Plain(b) => b == bytes
    case GZip(b) => exists n: nat :: IsMember(c, gzip, b, n, bytes)
    case Xz(b) => xz(c.lzma.start, b, bytes)
  }

  ghost predicate IsMember(c: Codecs, gzip: Encoding, b: seq<byte>, n: nat, decoded: seq<byte>) {
    0 < n <= |b| && gzip(c.inflate.start, b[..n], decoded)
  }

  lemma HeldContent(f: DiskFile, bytes: seq<byte>, c: Codecs, gzip: Encoding, xz: Encoding)
    requires Correct(c, gzip, xz) && Holds(f, bytes, c, gzip, xz)
    ensures ContentOf(f, c) == Content(bytes, false)
  {
    hide GZipRefill.Inflated, LzmaPump.Deliver, Lawful, Latching, DecodesMembers, DecodesFiles;
    match f
    case Plain(b) =>
    case GZip(b) =>
      var n: nat :| IsMember(c, gzip, b, n, bytes);
      assert b == b[..n] + b[n..];
      GZipRefill.MemberDelivered(c.inflate, gzip, b[..n], bytes, b[n..]);
    case Xz(b) =>
      LzmaPump.FileDelivered(c.lzma, xz, b, bytes);
  }

  function Uncompressed(contents: seq<seq<byte>>): seq<DiskFile> {
    seq(|contents|, i requires 0 <= i < |contents| => Plain(contents[i]))
  }

  /** Main result: merging compressed captures delivers exactly what merging the plain ones delivers. */
  lemma MergeIgnoresCompression(files: seq<DiskFile>, contents: seq<seq<byte>>, c: Codecs, gzip: Encoding, xz: Encoding)
    requires Correct(c, gzip, xz) && |files| == |contents|
    requires forall i :: 0 <= i < |files| ==> Holds(files[i], contents[i], c, gzip, xz)
    ensures Contributions(files, c) == Contributions(Uncompressed(contents), c)
    ensures SortedMerge.MergeOf(Contributions(files, c)) ==
            SortedMerge.MergeOf(Contributions(Uncompressed(contents), c))
  {
    hide Holds, FilePackets, SortedMerge.MergeOf;
    forall i | 0 <= i < |files|
      ensures FilePackets(ContentOf(files[i], c).bytes) == FilePackets(ContentOf(Uncompressed(contents)[i], c).bytes)
    {
      HeldContent(files[i], contents[i], c, gzip, xz);
    }
    assert Contributions(files, c) == Contributions(Uncompressed(contents), c);
  }

  lemma PrefixPackets(cut: seq<byte>, whole: seq<byte>)
    requires cut <= whole
    ensures FilePackets(cut) <= FilePackets(whole)
  {
    hide FilePackets;
    assert cut == whole[..|cut|];
    Truncation(whole, |cut|);
  }

  /** A compressed capture cut anywhere contributes a prefix of its packets: those in the bytes that the decoder hands
      out when it is shown what is there. Of a gzip member it then lacks only what the missing bytes decode to. A cut xz
      file ends in an exception unless what is left of it is a file again, as between two streams. */
  lemma CutCaptures(c: Codecs, gzip: Encoding, xz: Encoding, stored: seq<byte>, bytes: seq<byte>, cut: nat)
    returns (inflates: seq<Offer>, codes: seq<Offer>)
    requires Correct(c, gzip, xz) && Recognises(c.lzma, xz) && cut <= |stored|
    ensures GZipRefill.HandsOut(c.inflate, c.inflate.start, stored[..cut], inflates,
                                ContentOf(GZip(stored[..cut]), c).bytes)
    ensures var e := ContentOf(Xz(stored[..cut]), c);
      LzmaPump.HandsOut(c.lzma, c.lzma.start, stored[..cut], codes, e.bytes, e.neverEof)
    ensures gzip(c.inflate.start, stored, bytes) ==>
              FilePackets(ContentOf(GZip(stored[..cut]), c).bytes) <= FilePackets(bytes)
    ensures gzip(c.inflate.start, stored, bytes) && cut < |stored| ==>
              var r := Result(c.inflate, c.inflate.start, stored[..cut], inflates);
              && r.out <= bytes && ContentOf(GZip(stored[..cut]), c) == Content(r.out, false)
              && gzip(r.mem, stored[cut..], bytes[|r.out|..])
    ensures xz(c.lzma.start, stored, bytes) ==>
              && FilePackets(ContentOf(Xz(stored[..cut]), c).bytes) <= FilePackets(bytes)
              && (ContentOf(Xz(stored[..cut]), c).neverEof <==> !exists o :: xz(c.lzma.start, stored[..cut], o))
  {
    hide GZipRefill.Inflated, LzmaPump.Deliver, Lawful, Latching, DecodesMembers, DecodesFiles, Recognises, FilePackets,
      Legal, Result;
    inflates := GZipRefill.AllHandedOut(c.inflate, stored[..cut]);
    codes := LzmaPump.AllHandedOut(c.lzma, stored[..cut]);
    if gzip(c.inflate.start, stored, bytes) {
      inflates := GZipRefill.CutMemberDelivered(c.inflate, gzip, stored, bytes, cut);
      PrefixPackets(ContentOf(GZip(stored[..cut]), c).bytes, bytes);
    }
    if xz(c.lzma.start, stored, bytes) {
      LzmaPump.CutFileDelivered(c.lzma, xz, stored, bytes, cut);
      PrefixPackets(ContentOf(Xz(stored[..cut]), c).bytes, bytes);
    }
  }
}
