# Rex::Zip archive writer, modelled in Dafny

This project models the ZIP archive writer of the Rex library: `Rex::Zip::Archive`
and its JAR specialisation `Rex::Zip::Jar` (`lib/rex/zip/archive.rb`).

An `Archive` holds an ordered list of entries and an optional comment. `pack` turns them
into one archive image in two passes. Pass one writes each entry's local section and
records the offset where it starts. Pass two writes one central-directory record per
entry, in the same order, each with its recorded offset. Last comes the
end-of-central-directory record. It carries the entry count, the central directory's
size and the central directory's starting offset. This is the overall layout of
section 4.3.6 of PKWARE's APPNOTE.TXT. A `Jar` adds two operations. `build_manifest`
writes a JAR manifest and stores it by find-or-create on `META-INF/MANIFEST.MF`.
`add_files` imports files given as path segments and creates the missing directories
on the way.

Modules, leaves first:

- `ZipEntry` (`zip_entry.dfy`): the values. An `Entry` datatype holds the arguments of
  `Entry.new`. `Stat` is what the filesystem reports for a path. `Encoders` is the
  three record encoders.
- `ZipLayout` (`zip_layout.dfy`): the specification of `pack`. `LocalSection`,
  `Offsets`, `CentralDirectory` and `Image` are defined here, with lemmas saying where
  every record lies in the image.
- `ZipArchive` (`zip_archive.dfy`): class `Archive` with fields `entries`, `comment`
  and `compmeth`. `AddFile` and `SetComment` update the fields. `Pack` runs the source's
  two loops and is proved equal to `Image`. The field `entries` is the source's
  `attr_reader :entries`.
- `JarManifest` (`jar_manifest.dfy`): the manifest text, the last-match search and
  the find-or-create step `WithManifest`, with their lemmas.
- `JarImport` (`jar_import.dfy`): `add_files` as functions over the entry list
  (`EnsureDirs`, `ImportFile`, `ImportAll`), with lemmas. They cover ordering, no
  duplicate directories, and every ancestor directory being present.
- `ZipJar` (`zip_jar.dfy`): class `Jar`. Its methods `BuildManifest`, `AddFiles`,
  `ToS` and `Length` are imperative and are proved against the functions above. The
  loop of `build_manifest` over the entries is the method `ScanEntries`, and the inner
  directory loop of `add_files` is the method `AddDirectories`.

Modelling choices:

- Ruby Strings (entry names, payloads, the packed buffer) are Dafny `string`s. Each
  character stands for one byte (`type Bytes = string`).
- The encoders `Entry#pack`, `CentralDir#pack` and `CentralDirEnd#pack` are not part of
  this model. `Pack` receives them as an `Encoders` value of three functions: local
  bytes of an entry, central bytes of an entry and an offset, end bytes of a count, a
  size, an offset and a comment. Every offset and size property is stated in terms of
  the lengths of their results.
- `Jar` is a subclass of `Archive` in the source. A Dafny class cannot extend
  another class, so a `Jar` holds its `Archive` in `const archive` and changes that archive's
  `entries`.
- `add_file` stats and reads the filesystem. The model takes what it would find as a
  parameter `st: Stat`: a failed stat, a directory with its mtime, or a regular file
  with its mtime and contents. The parameter is used only when no data is supplied.
  `add_files` reads `File.join(path, file)`. The model takes the bytes found for each
  file's segments as a parameter `read`.
- `Pack` has no `modifies` clause and its result is a function of `entries` and
  `comment` alone. So two calls on an unmodified archive give equal output.

## Model

| member | source | states |
|---|---|---|
| `ZipLayout.OffsetsSnoc` | lib/rex/zip/archive.rb:62-65 | recording one more entry appends the current buffer length, i.e. the total local bytes of the entries before it, to the offsets |
| `ZipLayout.PassOneStep` | lib/rex/zip/archive.rb:62-65 | one turn of pass one appends entry i's local section to the buffer and records the buffer length before it as entry i's offset |
| `ZipLayout.LocalSectionConcat` | lib/rex/zip/archive.rb:62-65 | pass one's buffer for a concatenation of entry lists is the concatenation of their buffers |
| `ZipLayout.OffsetLocatesEntry` | lib/rex/zip/archive.rb:56-65 | the first offset is 0; entry i's local bytes sit exactly at its recorded offset; the next offset, or after the last entry the buffer length, follows them directly |
| `ZipLayout.CentralRecordsConcat` | lib/rex/zip/archive.rb:72-77 | the central records of a concatenation of entry lists are the concatenation of their records |
| `ZipLayout.PassTwoStep` | lib/rex/zip/archive.rb:72-77 | one turn of pass two appends the record built from entry i and its recorded offset |
| `ZipLayout.CentralRecordLocated` | lib/rex/zip/archive.rb:71-77 | central-directory records tile the central directory in entry order; record i is built from entry i and entry i's recorded offset |
| `ZipLayout.ImageSections` | lib/rex/zip/archive.rb:71-86 | the image is the local sections, then the central directory, then an end record built from the entry count, the central directory's length and the local sections' length |
| `ZipLayout.ImageLocatesLocal` | lib/rex/zip/archive.rb:55-87 | in the whole image, entry i's local bytes start at the offset recorded for entry i |
| `ZipLayout.ImageLocatesCentral` | lib/rex/zip/archive.rb:55-87 | in the whole image, entry i's central record, built with entry i's recorded offset, starts at the central-directory offset plus the records of the entries before it |
| `ZipLayout.EmptyImage` | lib/rex/zip/archive.rb:55-86 | an archive with no entries packs to the end record alone, with count, size and offset all 0 |
| `ZipArchive.Archive.constructor` | lib/rex/zip/archive.rb:14-17 | a new archive has no entries, no comment and the given compression method (Deflate by default) |
| `ZipArchive.Archive.AddFile` | lib/rex/zip/archive.rb:20-40 | with data, exactly one entry with that name, data and the archive's method is appended and earlier entries are unchanged; without data, a failed stat leaves the entries unchanged and answers nil, a directory is stored as name + "/" with the directory flag, no data and its mtime, a file with its contents; otherwise the answer is the entries list itself |
| `ZipArchive.Archive.SetComment` | lib/rex/zip/archive.rb:43-45 | the comment becomes the given one and the entries are unchanged |
| `ZipArchive.Archive.Pack` | lib/rex/zip/archive.rb:55-87 | the two loops and the final append produce exactly `Image(entries, comment, enc)`, with the state unchanged |
| `JarManifest.LastIndexNamed` | lib/rex/zip/archive.rb:105-106 | the scan keeps the last entry with the given name: the index found has that name and no later entry does; with none found, no entry has it |
| `JarManifest.ClassBlocksConcat` | lib/rex/zip/archive.rb:105-111 | the Name blocks of a concatenation of entry lists are the concatenation of their blocks |
| `JarManifest.ClassBlocksSnoc` | lib/rex/zip/archive.rb:105-111 | one more entry adds its Name block when its name ends in .class, and nothing otherwise |
| `JarManifest.ManifestTextSnoc` | lib/rex/zip/archive.rb:105-111 | one more step of the scan: appending the Name line and blank line for a class file, or nothing for any other entry, to the text so far gives the manifest text of the longer entry list |
| `JarManifest.ClassBlocksAround` | lib/rex/zip/archive.rb:105-111 | a class file's Name block sits between the blocks of the entries before it and those after it |
| `JarManifest.ManifestListsClassFile` | lib/rex/zip/archive.rb:102-111 | the manifest starts with its header (version line, optional Main-Class line, blank line); each class-file entry's "Name: n" block follows the header and the blocks of earlier class files, so they appear in entry order |
| `JarManifest.ManifestWithoutClassFiles` | lib/rex/zip/archive.rb:105-111 | entries whose names do not end in .class add nothing: with none, the manifest is the header alone |
| `JarManifest.FindOrCreateManifest` | lib/rex/zip/archive.rb:105-117 | with a manifest entry present, the count and names are unchanged and only the last manifest entry's data changes, to the new text; otherwise exactly META-INF/ with empty data and then META-INF/MANIFEST.MF with the text are appended; afterwards the last manifest entry holds the new text |
| `JarManifest.LastIndexStable` | lib/rex/zip/archive.rb:105-106 | the last entry with a name depends only on the entry names |
| `JarManifest.CountNamedStable` | lib/rex/zip/archive.rb:112-113 | overwriting data changes no name count |
| `JarManifest.ManifestCount` | lib/rex/zip/archive.rb:112-117 | building the manifest leaves exactly one manifest entry when there was none, and otherwise the same number |
| `JarManifest.CountNamedPositive` | lib/rex/zip/archive.rb:106 | an entry with the name makes its count positive |
| `JarManifest.CountNamedAbsent` | lib/rex/zip/archive.rb:106 | a name no entry carries has count 0 |
| `JarManifest.SecondBuildAddsNothing` | lib/rex/zip/archive.rb:112-117 | a second build_manifest adds no entry and changes no name |
| `JarManifest.ManifestDirNotDeduplicated` | lib/rex/zip/archive.rb:114-116 | META-INF/ is appended without a lookup: for any archive with no manifest entry, building the manifest adds exactly one more META-INF/ entry, so an archive already holding META-INF/ ends with at least two |
| `JarImport.DirPrefixGrows` | lib/rex/zip/archive.rb:168-169 | each deeper prefix extends the shallower one by the next segment and "/", so it is strictly longer |
| `JarImport.DirPrefixBegins` | lib/rex/zip/archive.rb:168-169 | a shallower directory prefix of a file begins every deeper one |
| `JarImport.JoinPrefix` | lib/rex/zip/archive.rb:169 | the first k segments joined with "/", followed by "/", begin the join of all segments |
| `JarImport.DirPrefixOfLeaf` | lib/rex/zip/archive.rb:169-178 | every directory prefix of a file begins the file's stored name |
| `JarImport.NamePersists` | lib/rex/zip/archive.rb:170-171 | appending entries never removes a name |
| `JarImport.EnsureDirsExtends` | lib/rex/zip/archive.rb:168-173 | the directory loop only appends, and what it appends are empty entries as `add_file(full, '')` builds them |
| `JarImport.EnsureDirsFresh` | lib/rex/zip/archive.rb:170-172 | no directory the loop appends has the name of any entry before it |
| `JarImport.EnsureDirsUnder` | lib/rex/zip/archive.rb:168-173 | every directory appended from segment idx on lies under segment idx's prefix |
| `JarImport.EnsureDirsShallowestFirst` | lib/rex/zip/archive.rb:168-173 | each appended directory name is a proper prefix of every directory appended after it |
| `JarImport.EnsureDirsAncestors` | lib/rex/zip/archive.rb:168-178 | every appended directory name begins the file's stored name |
| `JarImport.EnsureDirsArePrefixes` | lib/rex/zip/archive.rb:168-173 | every appended name is `base_dir + file[0, k].join("/") + "/"` for some k from segment idx on, so no other name is ever appended |
| `JarImport.EnsureDirsHas` | lib/rex/zip/archive.rb:168-173 | for one prefix from segment idx on: after the loop it names some entry, whether it was present before or appended by the loop |
| `JarImport.EnsureDirsComplete` | lib/rex/zip/archive.rb:168-173 | after the loop, every prefix of the file names some entry |
| `JarImport.ThreeSegmentImport` | lib/rex/zip/archive.rb:166-178 | a file of three segments whose two directories are both missing appends both directories, shallowest first, then itself |
| `JarImport.ImportFileLayout` | lib/rex/zip/archive.rb:166-179 | for one file: earlier entries stay; the file comes last with its data; every prefix names an entry before it; the appended directories are empty, fresh, shallowest first, prefixes of the file name, each one of the file's directory prefixes and so ending in "/" |
| `JarImport.ImportFileNames` | lib/rex/zip/archive.rb:166-178 | for one file: earlier entries stay in place, and afterwards the file and every directory prefix of it name an entry |
| `JarImport.ImportAllComplete` | lib/rex/zip/archive.rb:165-180 | add_files keeps earlier entries in place; afterwards every file and every directory prefix of every file names an entry |
| `JarImport.ImportFlatFile` | lib/rex/zip/archive.rb:168-178 | a one-segment file adds no directory, only itself under base_dir |
| `JarImport.ImportNestedFile` | lib/rex/zip/archive.rb:165-179 | ["a", "b.txt"] under WEB-INF/classes/ gives WEB-INF/classes/a/ and then WEB-INF/classes/a/b.txt |
| `JarImport.ImportDocumentedTree` | lib/rex/zip/archive.rb:139-163 | the documented example adds servlet/ and servlet/examples/ once each, before the files beneath them, and does not repeat servlet/ for Bar.class; the example's `add_file("WEB-INF/", "web.xml", web_xml)` at line 143 is left out of its starting entries |
| `JarImport.DocumentedTreeFirst` | lib/rex/zip/archive.rb:145-146 | the example's first file adds servlet/, servlet/examples/ and then itself |
| `JarImport.DocumentedTreeRest` | lib/rex/zip/archive.rb:147-148 | Foo.class needs no directory, and servlet/Bar.class finds servlet/ present |
| `JarImport.LeafNotDeduplicated` | lib/rex/zip/archive.rb:178 | the file itself is never looked up: importing any file whose stored name an entry already has (such as the same file a second time) leaves two entries of that name |
| `ZipJar.Jar.constructor` | lib/rex/zip/archive.rb:14-17 | a new jar has an empty fresh archive with the given method, no comment and no manifest |
| `ZipJar.Jar.BuildManifest` | lib/rex/zip/archive.rb:98-118 | the manifest field becomes `ManifestText` of the old entries, and the entries become the find-or-create `WithManifest` of the old entries with that text |
| `ZipJar.Jar.ScanEntries` | lib/rex/zip/archive.rb:102-111 | the `@entries.each` loop leaves the manifest text `ManifestText` of the entries and remembers the last entry named META-INF/MANIFEST.MF |
| `ZipJar.Jar.AddFiles` | lib/rex/zip/archive.rb:165-180 | the nested loops leave the entries equal to `ImportAll` of the old entries |
| `ZipJar.Jar.AddDirectories` | lib/rex/zip/archive.rb:168-173 | the inner loop leaves the entries equal to `EnsureDirs` of the old entries: each missing directory prefix appended once, shallowest first |
| `ZipJar.Jar.ToS` | lib/rex/zip/archive.rb:120-122 | to_s is the packed image |
| `ZipJar.Jar.Length` | lib/rex/zip/archive.rb:124-126 | length is the local sections' length plus the central directory's length plus the end record's length |

## Left out

- `ZipJar.Jar.BuildManifest`: the source method's return value is its last expression, either the manifest text or the entries list. The model returns nothing.
- `ZipArchive.Archive.SetComment`: the source returns the comment (line 44), the value of its assignment. The model returns nothing.
- `ZipJar.Jar.AddFiles`: the source returns `files`, the value of `files.each` (line 166). The model returns nothing.
- `ZipArchive.Archive.AddFile`: only nil counts as "no data". Ruby would also treat `false` that way. A failing `File.open`/`read` after a successful stat raises in the source and is not modelled.
- `ZipJar.Jar.AddFiles`: the source path `path` and `File.join` are replaced by the `read` parameter. A failing open or read raises mid-loop in the source and is not modelled.
- `save_to` (lines 48-52) only opens a file, writes `pack` and closes it. It is pure I/O.
- `inspect` (lines 89-91) formats a debugging string.
- The byte encodings of `Entry`, `CentralDir` and `CentralDirEnd` are not modelled: their definitions (`Rex::Zip::Entry`, `CentralDir`, `CentralDirEnd`) are outside this model. Compression, CRC, timestamp encoding and the fields of the three records are therefore not modelled. Whether a standard ZIP reader recovers each entry's name and payload from the image cannot be stated without them.
- Ruby string-length subtleties for non-binary encodings are not modelled. One character is one byte.
- The `/\.class$/` match is read as "ends with .class". Ruby's `$` also matches before a newline inside the name.
- The SHA1 digest line is commented out in the source and is not modelled.
- "No duplicate directory" is proved per imported file (`JarImport.EnsureDirsFresh`, `JarImport.ImportFileLayout`). Each step of `ImportAll` is such a file, but no single lemma over a whole `ImportAll` restates it.
- `lib/rex/proto/tftp/constants.rb` holds only opcode and error-code constants. It is not part of this model.
