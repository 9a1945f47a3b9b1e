/** `Rex::Zip::Archive` (lib/rex/zip/archive.rb:11-93): an ordered list of
    entries and an optional archive comment, serialised by a two-pass `pack`. */
module ZipArchive {
  import opened ZipEntry
  import opened ZipLayout

  class Archive {
    /** The compression method given to every entry this archive creates. */
    const compmeth: CompressionMethod
    /** `attr_reader :entries`: the members in archive order. */
    var entries: seq<Entry>
    /** The archive comment; nil until `set_comment` is called. */
    var comment: Option<string>

    constructor (compmeth: CompressionMethod := Deflate)
      ensures this.compmeth == compmeth && entries == [] && comment == None
    {
      this.compmeth := compmeth;
      entries := [];
      comment := None;
    }

    /** `add_file(fname, fdata, xtra, comment)`. With data supplied the entry is
        built from it; without, `st` is what the filesystem reports for fname:
        a failed stat adds nothing and answers nil, a directory is stored as
        fname + "/" with the directory flag and no data, a regular file with its
        contents. The answer is the entries list itself, not the new entry. */
    method AddFile(fname: string, fdata: Option<Bytes>, st: Stat,
                   xtra: Option<Bytes> := None, entryComment: Option<string> := None)
      returns (r: Option<seq<Entry>>)
      modifies this`entries
      ensures fdata.Some? ==>
                entries == old(entries) + [Entry(fname, fdata, compmeth, None, NoAttributes, xtra, entryComment)]
      ensures fdata.None? && st.StatFailed? ==> entries == old(entries)
      ensures fdata.None? && st.StatDirectory? ==>
                entries == old(entries) + [Entry(fname + "/", None, compmeth, Some(st.mtime), IsDirectory, xtra, entryComment)]
      ensures fdata.None? && st.StatFile? ==>
                entries == old(entries) + [Entry(fname, Some(st.contents), compmeth, Some(st.mtime), NoAttributes, xtra, entryComment)]
      ensures r == if fdata.None? && st.StatFailed? then None else Some(entries)
    {
      var name, data := fname, fdata;
      var ts: Option<int> := None;
      var attrs := NoAttributes;
      if fdata.None? {
        match st
        case StatFailed =>
          return None;
        case StatDirectory(mtime) =>
          ts := Some(mtime);
          attrs := IsDirectory;
          name := fname + "/";
        case StatFile(mtime, contents) =>
          ts := Some(mtime);
          data := Some(contents);
      }
      entries := entries + [Entry(name, data, compmeth, ts, attrs, xtra, entryComment)];
      r := Some(entries);
    }

    /** `set_comment(comment)`: replaces the archive comment and nothing else. */
    method SetComment(c: Option<string>)
      modifies this`comment
      ensures comment == c && entries == old(entries)
    {
      comment := c;
    }

    /** `pack`: pass one appends every entry's local section, recording where
        each starts; pass two appends one central-directory record per entry
        with its recorded offset; last comes the end record with the entry
        count, the central directory's size and its starting offset. */
    method Pack(enc: Encoders) returns (ret: Bytes)
      ensures ret == Image(entries, comment, enc)
    {
      var es := entries;
      ret := [];
      var offsets: seq<nat> := [];
      for i := 0 to |es|
        invariant ret == LocalSection(es[..i], enc)
        invariant offsets == Offsets(es[..i], enc)
      {
        PassOneStep(es, i, enc);
        offsets := offsets + [|ret|];
        ret := ret + enc.local(es[i]);
      }
      assert es[..|es|] == es;

      var cfdOffset := |ret|;
      var idx := 0;
      while idx < |es|
        invariant 0 <= idx <= |es|
        invariant ret == LocalSection(es, enc) + CentralRecords(es[..idx], offsets[..idx], enc)
      {
        PassTwoStep(es, offsets, idx, enc);
        BytesAssoc(LocalSection(es, enc), CentralRecords(es[..idx], offsets[..idx], enc), enc.central(es[idx], offsets[idx]));
        ret := ret + enc.central(es[idx], offsets[idx]);
        idx := idx + 1;
      }
      assert es[..idx] == es && offsets[..idx] == offsets;

      var curOffset := |ret| - cfdOffset;
      ret := ret + enc.trailer(|es|, curOffset, cfdOffset, comment);
    }
  }
}
