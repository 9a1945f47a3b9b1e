/** Values handled by the ZIP archive writer (lib/rex/zip/archive.rb): archive
    members, what the filesystem reports about a path, and the byte encoders of
    the three ZIP record kinds, whose definitions are not part of this model. */
module ZipEntry {

  datatype Option<T> = None | Some(value: T)

  /** A Ruby String used as a byte buffer: one character per byte. */
  type Bytes = string

  /** The compression method an archive hands to every entry it creates. */
  datatype CompressionMethod = Store | Deflate

  /** The external attributes passed to a new entry: nil, or the directory flag EFA_ISDIR. */
  datatype Attributes = NoAttributes | IsDirectory

  /** One archive member, with the arguments of `Entry.new(fname, fdata, compmeth, ts, attrs, xtra, comment)`. */
  datatype Entry = Entry(
    name: string,
    data: Option<Bytes>,          // nil for a directory taken from the filesystem
    compmeth: CompressionMethod,
    mtime: Option<int>,           // nil when the caller supplied the data
    attrs: Attributes,
    xtra: Option<Bytes>,
    comment: Option<string>)

  /** What `File.stat` says about a path and, for a regular file, what reading it whole yields. */
  datatype Stat = StatFailed | StatDirectory(mtime: int) | StatFile(mtime: int, contents: Bytes)

  /** The three record encoders: `Entry#pack` (local header and payload),
      `CentralDir.new(entry, offset).pack` and
      `CentralDirEnd.new(count, size, offset, comment).pack`. */
  datatype Encoders = Encoders(
    local: Entry -> Bytes,
    central: (Entry, nat) -> Bytes,
    trailer: (nat, nat, nat, Option<string>) -> Bytes)

  /** The entry `add_file(name, data)` builds when the data is supplied. */
  function DataEntry(name: string, data: Bytes, cm: CompressionMethod): Entry
  {
    Entry(name, Some(data), cm, None, NoAttributes, None, None)
  }

  /** `entries.map { |e| e.name }` */
  function Names(es: seq<Entry>): seq<string>
  {
    seq(|es|, i requires 0 <= i < |es| => es[i].name)
  }

  /** Concatenation of byte strings regroups freely. */
  lemma BytesAssoc(a: Bytes, b: Bytes, c: Bytes)
    ensures a + b + c == a + (b + c)
  {
  }
}
