/** The byte layout `Archive#pack` produces (lib/rex/zip/archive.rb:55-87),
    following the overall format of PKWARE's APPNOTE.TXT, section 4.3.6: the
    local sections of all entries, then one central-directory record per entry
    in the same order, then the end-of-central-directory record. */
module ZipLayout {
  import opened ZipEntry

  /** Pass one's buffer after the given entries: their local sections, back to back. */
  function LocalSection(es: seq<Entry>, enc: Encoders): Bytes
  {
    if es == [] then [] else LocalSection(es[..|es| - 1], enc) + enc.local(es[|es| - 1])
  }

  /** The offsets pass one records: entry i is recorded at the length of the
      buffer holding the local sections of entries 0..i-1. */
  function Offsets(es: seq<Entry>, enc: Encoders): seq<nat>
  {
    seq(|es|, i requires 0 <= i < |es| => |LocalSection(es[..i], enc)|)
  }

  /** Pass two's records: one central-directory record per entry, each paired with its offset. */
  function CentralRecords(es: seq<Entry>, offs: seq<nat>, enc: Encoders): Bytes
    requires |offs| == |es|
  {
    if es == [] then []
    else CentralRecords(es[..|es| - 1], offs[..|offs| - 1], enc) + enc.central(es[|es| - 1], offs[|offs| - 1])
  }

  /** The central directory of an archive holding es. */
  function CentralDirectory(es: seq<Entry>, enc: Encoders): Bytes
  {
    CentralRecords(es, Offsets(es, enc), enc)
  }

  /** Where the central-directory record of entry i starts within the central directory. */
  function CentralOffset(es: seq<Entry>, enc: Encoders, i: nat): nat
    requires i <= |es|
  {
    |CentralRecords(es[..i], Offsets(es, enc)[..i], enc)|
  }

  /** The whole archive image of es with the given archive comment. */
  function Image(es: seq<Entry>, comment: Option<string>, enc: Encoders): Bytes
  {
    var local := LocalSection(es, enc);
    var central := CentralDirectory(es, enc);
    local + central + enc.trailer(|es|, |central|, |local|, comment)
  }

  lemma {:induction false} LocalSectionConcat(a: seq<Entry>, b: seq<Entry>, enc: Encoders)
    ensures LocalSection(a + b, enc) == LocalSection(a, enc) + LocalSection(b, enc)
    decreases |b|
  {
    if b == [] {
      assert a + b == a;
    } else {
      var b' := b[..|b| - 1];
      assert (a + b)[..|a + b| - 1] == a + b';
      assert (a + b)[|a + b| - 1] == b[|b| - 1];
      LocalSectionConcat(a, b', enc);
    }
  }

  /** Recording one more entry appends the current buffer length to the offsets. */
  lemma OffsetsSnoc(es: seq<Entry>, e: Entry, enc: Encoders)
    ensures Offsets(es + [e], enc) == Offsets(es, enc) + [|LocalSection(es, enc)|]
  {
    var l, r := Offsets(es + [e], enc), Offsets(es, enc) + [|LocalSection(es, enc)|];
    forall k | 0 <= k < |es| + 1
      ensures l[k] == r[k]
    {
      assert (es + [e])[..k] == es[..k];
    }
  }

  /** One turn of pass one: entry i's local section is appended and the
      buffer length before it is recorded as its offset. */
  lemma PassOneStep(es: seq<Entry>, i: nat, enc: Encoders)
    requires i < |es|
    ensures LocalSection(es[..i + 1], enc) == LocalSection(es[..i], enc) + enc.local(es[i])
    ensures Offsets(es[..i + 1], enc) == Offsets(es[..i], enc) + [|LocalSection(es[..i], enc)|]
  {
    assert es[..i + 1] == es[..i] + [es[i]];
    OffsetsSnoc(es[..i], es[i], enc);
  }

  /** One turn of pass two: entry i's central record, with offset i, is appended. */
  lemma PassTwoStep(es: seq<Entry>, offs: seq<nat>, i: nat, enc: Encoders)
    requires i < |es| == |offs|
    ensures CentralRecords(es[..i + 1], offs[..i + 1], enc) == CentralRecords(es[..i], offs[..i], enc) + enc.central(es[i], offs[i])
  {
    assert es[..i + 1][..i] == es[..i];
    assert offs[..i + 1][..i] == offs[..i];
  }

  /** The recorded offsets tile pass one's buffer: the first is 0, entry i's
      local section sits exactly at its offset, and the next entry's offset (or,
      after the last entry, the central-directory offset) follows it directly. */
  lemma OffsetLocatesEntry(es: seq<Entry>, enc: Encoders, i: nat)
    requires i < |es|
    ensures var off := Offsets(es, enc)[i];
            var loc := LocalSection(es, enc);
            var rec := enc.local(es[i]);
            && (i == 0 ==> off == 0)
            && off + |rec| <= |loc|
            && loc[off..off + |rec|] == rec
            && off + |rec| == (if i + 1 < |es| then Offsets(es, enc)[i + 1] else |loc|)
  {
    assert es[..i + 1][..i] == es[..i];
    assert es[..i + 1] + es[i + 1..] == es;
    LocalSectionConcat(es[..i + 1], es[i + 1..], enc);
    if i + 1 == |es| {
      assert es[..i + 1] == es;
    }
  }

  lemma {:induction false} CentralRecordsConcat(a: seq<Entry>, oa: seq<nat>, b: seq<Entry>, ob: seq<nat>, enc: Encoders)
    requires |oa| == |a| && |ob| == |b|
    ensures CentralRecords(a + b, oa + ob, enc) == CentralRecords(a, oa, enc) + CentralRecords(b, ob, enc)
    decreases |b|
  {
    if b == [] {
      assert a + b == a;
      assert oa + ob == oa;
    } else {
      var b', ob' := b[..|b| - 1], ob[..|ob| - 1];
      assert (a + b)[..|a + b| - 1] == a + b';
      assert (oa + ob)[..|oa + ob| - 1] == oa + ob';
      assert (a + b)[|a + b| - 1] == b[|b| - 1];
      assert (oa + ob)[|oa + ob| - 1] == ob[|ob| - 1];
      CentralRecordsConcat(a, oa, b', ob', enc);
    }
  }

  /** The central-directory records tile the central directory in entry order,
      and record i is the one built from entry i and entry i's recorded offset. */
  lemma CentralRecordLocated(es: seq<Entry>, enc: Encoders, i: nat)
    requires i < |es|
    ensures var at := CentralOffset(es, enc, i);
            var cd := CentralDirectory(es, enc);
            var rec := enc.central(es[i], Offsets(es, enc)[i]);
            && (i == 0 ==> at == 0)
            && at + |rec| <= |cd|
            && cd[at..at + |rec|] == rec
            && at + |rec| == (if i + 1 < |es| then CentralOffset(es, enc, i + 1) else |cd|)
  {
    var offs := Offsets(es, enc);
    assert es[..i + 1][..i] == es[..i];
    assert offs[..i + 1][..i] == offs[..i];
    assert es[..i + 1] + es[i + 1..] == es;
    assert offs[..i + 1] + offs[i + 1..] == offs;
    CentralRecordsConcat(es[..i + 1], offs[..i + 1], es[i + 1..], offs[i + 1..], enc);
    if i + 1 == |es| {
      assert es[..i + 1] == es;
      assert offs[..i + 1] == offs;
    }
  }

  /** The archive image is the local sections, then the central directory, then
      the end record, and the end record is built from the entry count, the
      central directory's size and the central directory's starting offset. */
  lemma ImageSections(es: seq<Entry>, comment: Option<string>, enc: Encoders)
    ensures var img := Image(es, comment, enc);
            var cdOffset := |LocalSection(es, enc)|;
            var cdSize := |CentralDirectory(es, enc)|;
            && img[..cdOffset] == LocalSection(es, enc)
            && img[cdOffset..cdOffset + cdSize] == CentralDirectory(es, enc)
            && img[cdOffset + cdSize..] == enc.trailer(|es|, cdSize, cdOffset, comment)
  {
  }

  /** Within the whole image, entry i's local section starts at its recorded offset. */
  lemma ImageLocatesLocal(es: seq<Entry>, comment: Option<string>, enc: Encoders, i: nat)
    requires i < |es|
    ensures var img := Image(es, comment, enc);
            var off := Offsets(es, enc)[i];
            var loc := enc.local(es[i]);
            off + |loc| <= |img| && img[off..off + |loc|] == loc
  {
    var local, cd := LocalSection(es, enc), CentralDirectory(es, enc);
    OffsetLocatesEntry(es, enc, i);
    ImageSplit(es, comment, enc);
    SliceOfFirst(local, cd + enc.trailer(|es|, |cd|, |local|, comment), Offsets(es, enc)[i], enc.local(es[i]));
  }

  /** Within the whole image, entry i's central-directory record, carrying its
      recorded offset, lies at the central-directory offset plus the records
      of entries 0..i-1. */
  lemma ImageLocatesCentral(es: seq<Entry>, comment: Option<string>, enc: Encoders, i: nat)
    requires i < |es|
    ensures var img := Image(es, comment, enc);
            var cdStart := |LocalSection(es, enc)| + CentralOffset(es, enc, i);
            var rec := enc.central(es[i], Offsets(es, enc)[i]);
            cdStart + |rec| <= |img| && img[cdStart..cdStart + |rec|] == rec
  {
    var local, cd := LocalSection(es, enc), CentralDirectory(es, enc);
    CentralRecordLocated(es, enc, i);
    ImageSplit(es, comment, enc);
    SliceOfMiddle(local, cd, enc.trailer(|es|, |cd|, |local|, comment), CentralOffset(es, enc, i),
                  enc.central(es[i], Offsets(es, enc)[i]));
  }

  /** The image, grouped as the local sections followed by the rest. */
  lemma ImageSplit(es: seq<Entry>, comment: Option<string>, enc: Encoders)
    ensures var local, cd := LocalSection(es, enc), CentralDirectory(es, enc);
            Image(es, comment, enc) == local + (cd + enc.trailer(|es|, |cd|, |local|, comment))
  {
    var local, cd := LocalSection(es, enc), CentralDirectory(es, enc);
    BytesAssoc(local, cd, enc.trailer(|es|, |cd|, |local|, comment));
  }

  /** A slice of the first of two concatenated sections, read in the whole. */
  lemma SliceOfFirst(p: Bytes, q: Bytes, off: nat, part: Bytes)
    requires off + |part| <= |p| && p[off..off + |part|] == part
    ensures (p + q)[off..off + |part|] == part
  {
    assert (p + q)[off..off + |part|] == p[off..off + |part|];
  }

  /** A slice of the middle one of three concatenated sections, read in the whole. */
  lemma SliceOfMiddle(p: Bytes, q: Bytes, t: Bytes, at: nat, part: Bytes)
    requires at + |part| <= |q| && q[at..at + |part|] == part
    ensures |p| + at + |part| <= |p + (q + t)|
    ensures (p + (q + t))[|p| + at..|p| + at + |part|] == part
  {
    SliceOfFirst(q, t, at, part);
    assert (p + (q + t))[|p| + at..|p| + at + |part|] == (q + t)[at..at + |part|];
  }

  /** An archive with no entries packs to the end record alone, with count,
      size and offset all zero. */
  lemma EmptyImage(comment: Option<string>, enc: Encoders)
    ensures Image([], comment, enc) == enc.trailer(0, 0, 0, comment)
  {
  }
}
