/** `Rex::Zip::Jar` (lib/rex/zip/archive.rb:95-181): an archive that can
    write a JAR manifest and import a tree of files. The class extends
    `Archive` in the source; here a `Jar` holds its `Archive` and works on its
    entry list. */
module ZipJar {
  import opened ZipEntry
  import opened ZipLayout
  import opened ZipArchive
  import opened JarManifest
  import opened JarImport

  class Jar {
    /** The archive part of the jar: entries, comment and compression method. */
    const archive: Archive
    /** `attr_accessor :manifest`: the text of the last manifest built, nil before. */
    var manifest: Option<string>

    constructor (compmeth: CompressionMethod := Deflate)
      ensures fresh(archive) && manifest == None
      ensures archive.compmeth == compmeth && archive.entries == [] && archive.comment == None
    {
      archive := new Archive(compmeth);
      manifest := None;
    }

    /** `build_manifest(:main_class => mainClass)`: writes the header and one
        Name block per class file into `manifest`, remembering the last entry
        named META-INF/MANIFEST.MF; that entry's data becomes the manifest, or,
        with no such entry, META-INF/ and the manifest are appended. */
    method BuildManifest(mainClass: Option<string>)
      modifies this`manifest, archive`entries
      ensures manifest == Some(ManifestText(old(archive.entries), mainClass))
      ensures archive.entries == WithManifest(old(archive.entries), manifest.value, archive.compmeth)
    {
      var es := archive.entries;
      var m, existing := ScanEntries(es, mainClass);
      manifest := Some(m);
      match existing
      case Some(k) =>
        archive.entries := es[k := es[k].(data := Some(m))];
      case None =>
        var added := archive.AddFile(ManifestDir, Some(""), StatFailed);
        added := archive.AddFile(ManifestName, Some(m), StatFailed);
        assert archive.entries == es + [DataEntry(ManifestDir, "", archive.compmeth), DataEntry(ManifestName, m, archive.compmeth)];
    }

    /** The `@entries.each` loop of `build_manifest`: it builds the manifest
        text and remembers the last entry named META-INF/MANIFEST.MF. */
    static method ScanEntries(es: seq<Entry>, mainClass: Option<string>) returns (m: string, existing: Option<nat>)
      ensures m == ManifestText(es, mainClass)
      ensures existing == LastIndexNamed(es, ManifestName)
    {
      existing := None;
      m := Header(mainClass);
      assert m == ManifestText(es[..0], mainClass);
      for i := 0 to |es|
        invariant m == ManifestText(es[..i], mainClass)
        invariant existing == LastIndexNamed(es[..i], ManifestName)
      {
        assert es[..i + 1] == es[..i] + [es[i]];
        if es[i].name == ManifestName {
          existing := Some(i);
        }
        ghost var before := m;
        if IsClassFile(es[i].name) {
          m := m + NameLine(es[i].name);
          m := m + "\r\n";
        }
        ManifestTextSnoc(es[..i], es[i], mainClass, before, m);
      }
      assert es[..|es|] == es;
    }

    /** `add_files(files, path, base_dir)`: for each file, every missing
        directory prefix is added with empty data, shallowest first, then the
        file itself with the bytes read for it. */
    method AddFiles(files: seq<seq<string>>, read: seq<string> -> Bytes, baseDir: string := "")
      modifies archive`entries
      ensures archive.entries == ImportAll(old(archive.entries), files, read, baseDir, archive.compmeth)
    {
      var cm := archive.compmeth;
      for i := 0 to |files|
        invariant ImportAll(archive.entries, files[i..], read, baseDir, cm)
                  == ImportAll(old(archive.entries), files, read, baseDir, cm)
      {
        var file := files[i];
        ghost var before := archive.entries;
        AddDirectories(file, baseDir);
        var data := read(file);
        var added := archive.AddFile(LeafName(baseDir, file), Some(data), StatFailed);
        assert archive.entries == ImportFile(before, baseDir, file, read(file), cm);
        ImportAllStep(before, files, i, read, baseDir, cm);
      }
    }

    /** The inner loop of `add_files` for one file: `1.upto(file.length - 1)`,
        adding each directory prefix with empty data unless an entry already
        has its name. */
    method AddDirectories(file: seq<string>, baseDir: string)
      modifies archive`entries
      ensures archive.entries == EnsureDirs(old(archive.entries), baseDir, file, 1, archive.compmeth)
    {
      var idx := 1;
      while idx < |file|
        invariant 1 <= idx
        invariant EnsureDirs(archive.entries, baseDir, file, idx, archive.compmeth)
                  == EnsureDirs(old(archive.entries), baseDir, file, 1, archive.compmeth)
        decreases |file| - idx
      {
        var full := DirPrefix(baseDir, file, idx);
        ghost var current := archive.entries;
        if full !in Names(archive.entries) {
          var added := archive.AddFile(full, Some(""), StatFailed);
        }
        assert archive.entries == AddDir(current, full, archive.compmeth);
        EnsureDirsStep(current, baseDir, file, idx, archive.compmeth);
        idx := idx + 1;
      }
    }

    /** `to_s`: the packed archive. */
    method ToS(enc: Encoders) returns (s: Bytes)
      ensures s == Image(archive.entries, archive.comment, enc)
    {
      s := archive.Pack(enc);
    }

    /** `length`: the size of the packed archive: its local sections, central
        directory and end record together. */
    method Length(enc: Encoders) returns (n: nat)
      ensures n == |LocalSection(archive.entries, enc)| + |CentralDirectory(archive.entries, enc)|
                   + |enc.trailer(|archive.entries|, |CentralDirectory(archive.entries, enc)|,
                                  |LocalSection(archive.entries, enc)|, archive.comment)|
    {
      var s := archive.Pack(enc);
      n := |s|;
    }
  }
}
