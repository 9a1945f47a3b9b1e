/** What `Jar#add_files` does to the entry list (lib/rex/zip/archive.rb:165-180):
    for each file, given as its path segments, the missing directory prefixes
    are appended shallowest first, then the file itself. */
module JarImport {
  import opened ZipEntry

  /** `segs.join("/")` */
  function Join(segs: seq<string>): string
  {
    if |segs| == 0 then ""
    else if |segs| == 1 then segs[0]
    else Join(segs[..|segs| - 1]) + "/" + segs[|segs| - 1]
  }

  /** `base_dir + file[0, idx].join("/") + "/"`: the directory holding segment idx. */
  function DirPrefix(baseDir: string, file: seq<string>, idx: nat): string
    requires 1 <= idx <= |file|
  {
    baseDir + Join(file[..idx]) + "/"
  }

  /** `base_dir + file.join("/")`: the name the file itself is stored under. */
  function LeafName(baseDir: string, file: seq<string>): string
  {
    baseDir + Join(file)
  }

  /** One step of that loop: `add_file(full, '')` unless some entry is already named full. */
  function AddDir(es: seq<Entry>, full: string, cm: CompressionMethod): seq<Entry>
  {
    if full in Names(es) then es else es + [DataEntry(full, "", cm)]
  }

  /** The loop `idx.upto(file.length - 1)`, from segment idx on: each prefix is
      appended as an empty entry unless some entry already has that name. */
  function EnsureDirs(es: seq<Entry>, baseDir: string, file: seq<string>, idx: nat, cm: CompressionMethod): seq<Entry>
    requires 1 <= idx
    decreases |file| - idx
  {
    if idx >= |file| then es
    else
      EnsureDirs(AddDir(es, DirPrefix(baseDir, file, idx), cm), baseDir, file, idx + 1, cm)
  }

  /** One file: its missing directories, then the file with the given data. */
  function ImportFile(es: seq<Entry>, baseDir: string, file: seq<string>, data: Bytes, cm: CompressionMethod): seq<Entry>
  {
    EnsureDirs(es, baseDir, file, 1, cm) + [DataEntry(LeafName(baseDir, file), data, cm)]
  }

  /** All files in order; read gives the bytes found for a file's path segments. */
  function ImportAll(es: seq<Entry>, files: seq<seq<string>>, read: seq<string> -> Bytes, baseDir: string,
                     cm: CompressionMethod): seq<Entry>
    decreases |files|
  {
    if files == [] then es
    else ImportAll(ImportFile(es, baseDir, files[0], read(files[0]), cm), files[1..], read, baseDir, cm)
  }

  /** One turn of the directory loop. */
  lemma EnsureDirsStep(es: seq<Entry>, baseDir: string, file: seq<string>, idx: nat, cm: CompressionMethod)
    requires 1 <= idx < |file|
    ensures EnsureDirs(es, baseDir, file, idx, cm)
            == EnsureDirs(AddDir(es, DirPrefix(baseDir, file, idx), cm), baseDir, file, idx + 1, cm)
  {
  }

  /** One turn of the loop over files. */
  lemma ImportAllStep(es: seq<Entry>, files: seq<seq<string>>, i: nat, read: seq<string> -> Bytes,
                      baseDir: string, cm: CompressionMethod)
    requires i < |files|
    ensures ImportAll(es, files[i..], read, baseDir, cm)
            == ImportAll(ImportFile(es, baseDir, files[i], read(files[i]), cm), files[i + 1..], read, baseDir, cm)
  {
    assert files[i..][0] == files[i] && files[i..][1..] == files[i + 1..];
  }

  // Paths

  /** Segment k's directory extends segment k-1's by the segment and a "/". */
  lemma DirPrefixGrows(baseDir: string, file: seq<string>, k: nat)
    requires 1 <= k < |file|
    ensures DirPrefix(baseDir, file, k + 1) == DirPrefix(baseDir, file, k) + file[k] + "/"
    ensures DirPrefix(baseDir, file, k) < DirPrefix(baseDir, file, k + 1)
  {
    assert file[..k + 1][..k] == file[..k];
  }

  /** The first k segments, joined and followed by "/", begin the joined whole. */
  lemma {:induction false} JoinPrefix(segs: seq<string>, k: nat)
    requires 1 <= k < |segs|
    ensures Join(segs[..k]) + "/" <= Join(segs)
    decreases |segs|
  {
    var n := |segs|;
    if k < n - 1 {
      JoinPrefix(segs[..n - 1], k);
      assert segs[..n - 1][..k] == segs[..k];
    } else {
      assert segs[..n - 1] == segs[..k];
    }
  }

  /** Every directory prefix of a file begins the file's own name. */
  lemma DirPrefixOfLeaf(baseDir: string, file: seq<string>, k: nat)
    requires 1 <= k < |file|
    ensures DirPrefix(baseDir, file, k) <= LeafName(baseDir, file)
  {
    JoinPrefix(file, k);
    var j := Join(file[..k]) + "/";
    assert DirPrefix(baseDir, file, k) == baseDir + j;
    assert Join(file)[..|j|] == j;
  }

  // Names

  /** A name present in a list is still present in any list extending it. */
  lemma NamePersists(es: seq<Entry>, r: seq<Entry>, x: string)
    requires |es| <= |r| && r[..|es|] == es && x in Names(es)
    ensures x in Names(r)
  {
    var i :| 0 <= i < |es| && Names(es)[i] == x;
    assert r[i] == es[i];
    assert Names(r)[i] == x;
  }

  // One file's directories

  /** The directory step only appends, and what it appends are empty entries
      built as `add_file(full, '')` builds them. */
  lemma {:induction false} EnsureDirsExtends(es: seq<Entry>, baseDir: string, file: seq<string>, idx: nat, cm: CompressionMethod)
    requires 1 <= idx
    ensures var r := EnsureDirs(es, baseDir, file, idx, cm);
            && |es| <= |r| && r[..|es|] == es
            && forall j :: |es| <= j < |r| ==> r[j] == DataEntry(r[j].name, "", cm)
    decreases |file| - idx
  {
    if idx < |file| {
      var full := DirPrefix(baseDir, file, idx);
      var es' := AddDir(es, full, cm);
      EnsureDirsExtends(es', baseDir, file, idx + 1, cm);
      var r := EnsureDirs(es', baseDir, file, idx + 1, cm);
      assert r[..|es'|][..|es|] == r[..|es|];
    }
  }

  /** No appended directory repeats the name of an entry before it. */
  lemma {:induction false} EnsureDirsFresh(es: seq<Entry>, baseDir: string, file: seq<string>, idx: nat, cm: CompressionMethod)
    requires 1 <= idx
    ensures var r := EnsureDirs(es, baseDir, file, idx, cm);
            forall j, k :: |es| <= j < |r| && 0 <= k < j ==> r[k].name != r[j].name
    decreases |file| - idx
  {
    if idx < |file| {
      var full := DirPrefix(baseDir, file, idx);
      var es' := AddDir(es, full, cm);
      var r := EnsureDirs(es', baseDir, file, idx + 1, cm);
      EnsureDirsFresh(es', baseDir, file, idx + 1, cm);
      if full !in Names(es) {
        EnsureDirsExtends(es', baseDir, file, idx + 1, cm);
        forall k | 0 <= k < |es|
          ensures r[k].name != r[|es|].name
        {
          assert r[k] == es'[k] == es[k] && r[|es|] == es'[|es|];
          assert Names(es)[k] == es[k].name;
        }
      }
    }
  }

  /** Every directory appended from segment idx on lies under segment idx's directory. */
  lemma EnsureDirsUnder(es: seq<Entry>, baseDir: string, file: seq<string>, idx: nat, cm: CompressionMethod)
    requires 1 <= idx <= |file|
    ensures var r := EnsureDirs(es, baseDir, file, idx, cm);
            forall j :: |es| <= j < |r| ==> DirPrefix(baseDir, file, idx) <= r[j].name
  {
    EnsureDirsArePrefixes(es, baseDir, file, idx, cm);
    var r := EnsureDirs(es, baseDir, file, idx, cm);
    // The postcondition just obtained, in the form it was stated in.
    assert var r' := EnsureDirs(es, baseDir, file, idx, cm);
           forall j :: |es| <= j < |r'| ==> exists k :: idx <= k < |file| && r'[j].name == DirPrefix(baseDir, file, k);
    forall j | |es| <= j < |r|
      ensures DirPrefix(baseDir, file, idx) <= r[j].name
    {
      var k :| idx <= k < |file| && r[j].name == DirPrefix(baseDir, file, k);
      DirPrefixBegins(baseDir, file, idx, k);
    }
  }

  /** A shallower directory prefix begins every deeper one. */
  lemma {:induction false} DirPrefixBegins(baseDir: string, file: seq<string>, i: nat, k: nat)
    requires 1 <= i <= k <= |file|
    ensures DirPrefix(baseDir, file, i) <= DirPrefix(baseDir, file, k)
    decreases k - i
  {
    if i < k {
      DirPrefixGrows(baseDir, file, i);
      DirPrefixBegins(baseDir, file, i + 1, k);
      PrefixThenPrefix(DirPrefix(baseDir, file, i), DirPrefix(baseDir, file, i + 1), DirPrefix(baseDir, file, k));
    }
  }

  /** Shallowest first: each appended directory name is a proper prefix of
      every directory name appended after it. */
  lemma {:induction false} EnsureDirsShallowestFirst(es: seq<Entry>, baseDir: string, file: seq<string>, idx: nat, cm: CompressionMethod)
    requires 1 <= idx
    ensures var r := EnsureDirs(es, baseDir, file, idx, cm);
            forall j1, j2 :: |es| <= j1 < j2 < |r| ==> r[j1].name < r[j2].name
    decreases |file| - idx
  {
    if idx < |file| {
      var full := DirPrefix(baseDir, file, idx);
      var es' := AddDir(es, full, cm);
      var r := EnsureDirs(es', baseDir, file, idx + 1, cm);
      EnsureDirsStep(es, baseDir, file, idx, cm);
      EnsureDirsShallowestFirst(es', baseDir, file, idx + 1, cm);
      if full !in Names(es) {
        assert |es'| == |es| + 1 && es'[|es|].name == full;
        EnsureDirsUnder(es', baseDir, file, idx + 1, cm);
        EnsureDirsExtends(es', baseDir, file, idx + 1, cm);
        DirPrefixGrows(baseDir, file, idx);
        assert r[|es|].name == full;
        forall j1, j2 | |es| <= j1 < j2 < |r|
          ensures r[j1].name < r[j2].name
        {
          if j1 == |es| {
            PrefixThenPrefix(full, DirPrefix(baseDir, file, idx + 1), r[j2].name);
          }
        }
      }
    }
  }

  lemma PrefixThenPrefix(a: string, b: string, c: string)
    requires a < b && b <= c
    ensures a < c
  {
    assert c[..|a|] == b[..|a|];
  }

  /** Every appended directory name begins the file's own name. */
  lemma EnsureDirsAncestors(es: seq<Entry>, baseDir: string, file: seq<string>, idx: nat, cm: CompressionMethod)
    requires 1 <= idx
    ensures var r := EnsureDirs(es, baseDir, file, idx, cm);
            forall j :: |es| <= j < |r| ==> r[j].name <= LeafName(baseDir, file)
  {
    EnsureDirsArePrefixes(es, baseDir, file, idx, cm);
    var r := EnsureDirs(es, baseDir, file, idx, cm);
    // The postcondition just obtained, in the form it was stated in.
    assert var r' := EnsureDirs(es, baseDir, file, idx, cm);
           forall j :: |es| <= j < |r'| ==> exists k :: idx <= k < |file| && r'[j].name == DirPrefix(baseDir, file, k);
    forall j | |es| <= j < |r|
      ensures r[j].name <= LeafName(baseDir, file)
    {
      var k :| idx <= k < |file| && r[j].name == DirPrefix(baseDir, file, k);
      DirPrefixOfLeaf(baseDir, file, k);
    }
  }

  /** Every appended name is one of the file's directory prefixes from segment idx on. */
  lemma {:induction false} EnsureDirsArePrefixes(es: seq<Entry>, baseDir: string, file: seq<string>, idx: nat, cm: CompressionMethod)
    requires 1 <= idx
    ensures var r := EnsureDirs(es, baseDir, file, idx, cm);
            forall j :: |es| <= j < |r| ==> exists k :: idx <= k < |file| && r[j].name == DirPrefix(baseDir, file, k)
    decreases |file| - idx
  {
    if idx < |file| {
      var full := DirPrefix(baseDir, file, idx);
      var es' := AddDir(es, full, cm);
      var r := EnsureDirs(es', baseDir, file, idx + 1, cm);
      EnsureDirsArePrefixes(es', baseDir, file, idx + 1, cm);
      if full !in Names(es) {
        EnsureDirsExtends(es', baseDir, file, idx + 1, cm);
        assert r[|es|] == es'[|es|];
        assert r[|es|].name == DirPrefix(baseDir, file, idx);
      }
      assert r == EnsureDirs(es, baseDir, file, idx, cm);
    }
  }

  /** After the directory step every prefix from segment idx on names an entry. */
  lemma EnsureDirsComplete(es: seq<Entry>, baseDir: string, file: seq<string>, idx: nat, cm: CompressionMethod)
    requires 1 <= idx
    ensures var r := EnsureDirs(es, baseDir, file, idx, cm);
            forall k :: idx <= k < |file| ==> DirPrefix(baseDir, file, k) in Names(r)
  {
    forall k | idx <= k < |file|
      ensures DirPrefix(baseDir, file, k) in Names(EnsureDirs(es, baseDir, file, idx, cm))
    {
      EnsureDirsHas(es, baseDir, file, idx, k, cm);
    }
  }

  /** Prefix k, for one k from segment idx on, names an entry after the directory step. */
  lemma {:induction false} EnsureDirsHas(es: seq<Entry>, baseDir: string, file: seq<string>, idx: nat, k: nat, cm: CompressionMethod)
    requires 1 <= idx <= k < |file|
    ensures DirPrefix(baseDir, file, k) in Names(EnsureDirs(es, baseDir, file, idx, cm))
    decreases |file| - idx
  {
    var full := DirPrefix(baseDir, file, idx);
    var es' := AddDir(es, full, cm);
    EnsureDirsStep(es, baseDir, file, idx, cm);
    if k == idx {
      AddDirNames(es, full, cm);
      EnsureDirsExtends(es', baseDir, file, idx + 1, cm);
      NamePersists(es', EnsureDirs(es', baseDir, file, idx + 1, cm), full);
    } else {
      EnsureDirsHas(es', baseDir, file, idx + 1, k, cm);
    }
  }

  /** After one directory step its directory names an entry. */
  lemma AddDirNames(es: seq<Entry>, full: string, cm: CompressionMethod)
    ensures full in Names(AddDir(es, full, cm))
  {
    if full !in Names(es) {
      assert Names(AddDir(es, full, cm))[|es|] == full;
    }
  }

  /** `add_files` for one file: the earlier entries stay in place; the file
      comes last with its data; before it, every directory prefix of the file
      names an entry; and the directories appended are empty entries, each of
      a name no entry had when it was appended, each a proper prefix of the
      next and a prefix of the file's name, and each one of the file's
      directory prefixes, so that it ends in "/". */
  lemma ImportFileLayout(es: seq<Entry>, baseDir: string, file: seq<string>, data: Bytes, cm: CompressionMethod)
    ensures var r := ImportFile(es, baseDir, file, data, cm);
            && |es| < |r| && r[..|es|] == es
            && r[|r| - 1] == DataEntry(LeafName(baseDir, file), data, cm)
            && (forall k :: 1 <= k < |file| ==> DirPrefix(baseDir, file, k) in Names(r[..|r| - 1]))
            && (forall j :: |es| <= j < |r| - 1 ==>
                  && r[j] == DataEntry(r[j].name, "", cm)
                  && (forall k :: 0 <= k < j ==> r[k].name != r[j].name)
                  && r[j].name <= LeafName(baseDir, file)
                  && (exists k :: 1 <= k < |file| && r[j].name == DirPrefix(baseDir, file, k))
                  && |r[j].name| > 0 && r[j].name[|r[j].name| - 1] == '/')
            && (forall j1, j2 :: |es| <= j1 < j2 < |r| - 1 ==> r[j1].name < r[j2].name)
  {
    var dirs := EnsureDirs(es, baseDir, file, 1, cm);
    var r := ImportFile(es, baseDir, file, data, cm);
    assert r[..|r| - 1] == dirs;
    EnsureDirsExtends(es, baseDir, file, 1, cm);
    EnsureDirsFresh(es, baseDir, file, 1, cm);
    EnsureDirsShallowestFirst(es, baseDir, file, 1, cm);
    EnsureDirsAncestors(es, baseDir, file, 1, cm);
    EnsureDirsArePrefixes(es, baseDir, file, 1, cm);
    EnsureDirsComplete(es, baseDir, file, 1, cm);
    assert r[..|es|] == dirs[..|es|];
    forall j | |es| <= j < |r| - 1
      ensures r[..j] == dirs[..j]
    {
    }
  }

  /** After one file, the earlier entries stay and the file and all its directory prefixes name entries. */
  lemma ImportFileNames(es: seq<Entry>, baseDir: string, file: seq<string>, data: Bytes, cm: CompressionMethod)
    ensures var r := ImportFile(es, baseDir, file, data, cm);
            && |es| <= |r| && r[..|es|] == es
            && LeafName(baseDir, file) in Names(r)
            && forall k :: 1 <= k < |file| ==> DirPrefix(baseDir, file, k) in Names(r)
  {
    var dirs := EnsureDirs(es, baseDir, file, 1, cm);
    var r := ImportFile(es, baseDir, file, data, cm);
    EnsureDirsExtends(es, baseDir, file, 1, cm);
    EnsureDirsComplete(es, baseDir, file, 1, cm);
    assert r[..|dirs|] == dirs;
    assert r[..|es|] == dirs[..|es|];
    assert Names(r)[|r| - 1] == LeafName(baseDir, file);
    forall k | 1 <= k < |file|
      ensures DirPrefix(baseDir, file, k) in Names(r)
    {
      NamePersists(dirs, r, DirPrefix(baseDir, file, k));
    }
  }

  // All files

  /** `add_files` keeps the earlier entries in place, and afterwards every
      file and every directory prefix of every file names an entry. */
  lemma {:induction false} ImportAllComplete(es: seq<Entry>, files: seq<seq<string>>, read: seq<string> -> Bytes,
                                             baseDir: string, cm: CompressionMethod)
    ensures var r := ImportAll(es, files, read, baseDir, cm);
            && |es| <= |r| && r[..|es|] == es
            && (forall i :: 0 <= i < |files| ==> LeafName(baseDir, files[i]) in Names(r))
            && (forall i, k :: 0 <= i < |files| && 1 <= k < |files[i]| ==> DirPrefix(baseDir, files[i], k) in Names(r))
    decreases |files|
  {
    if files != [] {
      var f := files[0];
      var es1 := ImportFile(es, baseDir, f, read(f), cm);
      var r := ImportAll(es1, files[1..], read, baseDir, cm);
      ImportFileNames(es, baseDir, f, read(f), cm);
      ImportAllComplete(es1, files[1..], read, baseDir, cm);
      assert r[..|es1|][..|es|] == r[..|es|];
      NamePersists(es1, r, LeafName(baseDir, f));
      forall k | 1 <= k < |f|
        ensures DirPrefix(baseDir, f, k) in Names(r)
      {
        NamePersists(es1, r, DirPrefix(baseDir, f, k));
      }
      forall i | 1 <= i < |files|
        ensures files[i] == files[1..][i - 1]
      {
      }
    }
  }

  /** A file of one segment adds no directory, only itself. */
  lemma ImportFlatFile(es: seq<Entry>, baseDir: string, name: string, data: Bytes, cm: CompressionMethod)
    ensures ImportFile(es, baseDir, [name], data, cm) == es + [DataEntry(baseDir + name, data, cm)]
  {
  }

  /** `["a", "b.txt"]` under "WEB-INF/classes/" gives the directory
      "WEB-INF/classes/a/" and then the file "WEB-INF/classes/a/b.txt". */
  lemma ImportNestedFile(read: seq<string> -> Bytes, cm: CompressionMethod)
    ensures Names(ImportAll([], [["a", "b.txt"]], read, "WEB-INF/classes/", cm))
            == ["WEB-INF/classes/a/", "WEB-INF/classes/a/b.txt"]
  {
    var file := ["a", "b.txt"];
    var base := "WEB-INF/classes/";
    assert file[..1] == ["a"] && Join(["a"]) == "a";
    assert Join(file) == "a/b.txt";
    var d := DataEntry(base + "a" + "/", "", cm);
    assert DirPrefix(base, file, 1) == base + "a" + "/";
    assert Names([]) == [];
    assert EnsureDirs([d], base, file, 2, cm) == [d];
    assert EnsureDirs([], base, file, 1, cm) == [d];
    var none: seq<seq<string>> := [];
    assert [file][1..] == none;
    var leaf := DataEntry(base + "a/b.txt", read(file), cm);
    assert LeafName(base, file) == base + "a/b.txt";
    assert ImportFile([], base, file, read(file), cm) == [d, leaf];
    assert ImportAll([d, leaf], none, read, base, cm) == [d, leaf];
    var r := ImportAll([], [file], read, base, cm);
    assert r == [d, DataEntry(base + "a/b.txt", read(file), cm)];
    assert base + "a" + "/" == "WEB-INF/classes/a/";
    assert base + "a/b.txt" == "WEB-INF/classes/a/b.txt";
  }

  /** The example in the comment above `add_files`: with WEB-INF/ and
      WEB-INF/classes/ present, importing servlet/examples/HelloWorld.class,
      Foo.class and servlet/Bar.class under WEB-INF/classes/ adds servlet/ and
      servlet/examples/ once each, ahead of the files beneath them.
      The example's second call, `war.add_file("WEB-INF/", "web.xml", web_xml)`
      (lib/rex/zip/archive.rb:143), is omitted here: as written it stores a
      second entry named WEB-INF/ with data "web.xml" and extra field web_xml,
      not the WEB-INF/web.xml its drawing shows, and no name it adds is one
      `add_files` looks up below WEB-INF/classes/. */
  lemma ImportDocumentedTree(read: seq<string> -> Bytes, cm: CompressionMethod)
    ensures var base := "WEB-INF/classes/";
            var es := [DataEntry("WEB-INF/", "", cm), DataEntry(base, "", cm)];
            var files := [["servlet", "examples", "HelloWorld.class"], ["Foo.class"], ["servlet", "Bar.class"]];
            Names(ImportAll(es, files, read, base, cm))
            == ["WEB-INF/", base,
                base + "servlet/", base + "servlet/examples/", base + "servlet/examples/HelloWorld.class",
                base + "Foo.class",
                base + "servlet/Bar.class"]
  {
    var base := "WEB-INF/classes/";
    var f1, f2, f3 := ["servlet", "examples", "HelloWorld.class"], ["Foo.class"], ["servlet", "Bar.class"];
    var files := [f1, f2, f3];
    var es0 := [DataEntry("WEB-INF/", "", cm), DataEntry(base, "", cm)];
    var s, e := DataEntry(base + "servlet/", "", cm), DataEntry(base + "servlet/examples/", "", cm);
    var h := DataEntry(base + "servlet/examples/HelloWorld.class", read(f1), cm);
    var foo := DataEntry(base + "Foo.class", read(f2), cm);
    var bar := DataEntry(base + "servlet/Bar.class", read(f3), cm);
    var es1 := es0 + [s, e, h];
    var es2 := es1 + [foo];
    var es3 := es2 + [bar];
    DocumentedTreeFirst(read(f1), cm);
    DocumentedTreeRest(es1, read(f2), read(f3), cm);
    ImportAllCons(es0, f1, [f2, f3], read, base, cm);
    ImportAllCons(es1, f2, [f3], read, base, cm);
    ImportAllCons(es2, f3, [], read, base, cm);
    assert [f1] + [f2, f3] == files && [f2] + [f3] == [f2, f3] && [f3] + [] == [f3];
    assert Names(es3) == ["WEB-INF/", base, base + "servlet/", base + "servlet/examples/",
                          base + "servlet/examples/HelloWorld.class", base + "Foo.class", base + "servlet/Bar.class"];
  }

  /** Importing a first file, then the rest. */
  lemma ImportAllCons(es: seq<Entry>, f: seq<string>, rest: seq<seq<string>>, read: seq<string> -> Bytes,
                      baseDir: string, cm: CompressionMethod)
    ensures ImportAll(es, [f] + rest, read, baseDir, cm)
            == ImportAll(ImportFile(es, baseDir, f, read(f), cm), rest, read, baseDir, cm)
  {
    assert ([f] + rest)[0] == f && ([f] + rest)[1..] == rest;
  }

  /** The first file of the documented example adds servlet/, servlet/examples/ and itself. */
  lemma DocumentedTreeFirst(data: Bytes, cm: CompressionMethod)
    ensures var base := "WEB-INF/classes/";
            var es0 := [DataEntry("WEB-INF/", "", cm), DataEntry(base, "", cm)];
            ImportFile(es0, base, ["servlet", "examples", "HelloWorld.class"], data, cm)
            == es0 + [DataEntry(base + "servlet/", "", cm), DataEntry(base + "servlet/examples/", "", cm),
                      DataEntry(base + "servlet/examples/HelloWorld.class", data, cm)]
  {
    var base := "WEB-INF/classes/";
    var f1 := ["servlet", "examples", "HelloWorld.class"];
    var es0 := [DataEntry("WEB-INF/", "", cm), DataEntry(base, "", cm)];
    DocumentedFirstPaths();
    DocumentedFirstFresh(cm);
    ThreeSegmentImport(es0, base, f1, data, cm);
  }

  lemma DocumentedFirstPaths()
    ensures var base, f1 := "WEB-INF/classes/", ["servlet", "examples", "HelloWorld.class"];
            && DirPrefix(base, f1, 1) == base + "servlet/"
            && DirPrefix(base, f1, 2) == base + "servlet/examples/"
            && LeafName(base, f1) == base + "servlet/examples/HelloWorld.class"
  {
    var f1 := ["servlet", "examples", "HelloWorld.class"];
    assert f1[..1] == ["servlet"];
    assert f1[..2] == ["servlet", "examples"];
    JoinTwo("servlet", "examples");
    JoinThree("servlet", "examples", "HelloWorld.class");
  }

  lemma DocumentedFirstFresh(cm: CompressionMethod)
    ensures var base := "WEB-INF/classes/";
            var es0 := [DataEntry("WEB-INF/", "", cm), DataEntry(base, "", cm)];
            && base + "servlet/" !in Names(es0)
            && base + "servlet/examples/" !in Names(es0 + [DataEntry(base + "servlet/", "", cm)])
  {
    var base := "WEB-INF/classes/";
    var es0 := [DataEntry("WEB-INF/", "", cm), DataEntry(base, "", cm)];
    assert Names(es0) == ["WEB-INF/", base];
    assert Names(es0 + [DataEntry(base + "servlet/", "", cm)]) == ["WEB-INF/", base, base + "servlet/"];
  }

  /** A path of three segments whose two directories are both missing adds both, then itself. */
  lemma ThreeSegmentImport(es: seq<Entry>, baseDir: string, file: seq<string>, data: Bytes, cm: CompressionMethod)
    requires |file| == 3
    requires DirPrefix(baseDir, file, 1) !in Names(es)
    requires DirPrefix(baseDir, file, 2) !in Names(es + [DataEntry(DirPrefix(baseDir, file, 1), "", cm)])
    ensures ImportFile(es, baseDir, file, data, cm)
            == es + [DataEntry(DirPrefix(baseDir, file, 1), "", cm), DataEntry(DirPrefix(baseDir, file, 2), "", cm),
                     DataEntry(LeafName(baseDir, file), data, cm)]
  {
    var s := DataEntry(DirPrefix(baseDir, file, 1), "", cm);
    var e := DataEntry(DirPrefix(baseDir, file, 2), "", cm);
    assert EnsureDirs(es + [s, e], baseDir, file, 3, cm) == es + [s, e];
    assert es + [s] + [e] == es + [s, e];
    assert EnsureDirs(es + [s], baseDir, file, 2, cm) == es + [s, e];
    assert EnsureDirs(es, baseDir, file, 1, cm) == es + [s, e];
  }

  lemma JoinTwo(a: string, b: string)
    ensures Join([a, b]) == a + "/" + b
  {
    assert [a, b][..1] == [a];
  }

  lemma JoinThree(a: string, b: string, c: string)
    ensures Join([a, b, c]) == a + "/" + b + "/" + c
  {
    assert [a, b, c][..2] == [a, b];
    JoinTwo(a, b);
  }

  /** The other two files of the documented example: Foo.class needs no
      directory, and servlet/Bar.class finds servlet/ already present. */
  lemma DocumentedTreeRest(es1: seq<Entry>, d2: Bytes, d3: Bytes, cm: CompressionMethod)
    requires |es1| > 2 && es1[2].name == "WEB-INF/classes/servlet/"
    ensures var base := "WEB-INF/classes/";
            var es2 := es1 + [DataEntry(base + "Foo.class", d2, cm)];
            && ImportFile(es1, base, ["Foo.class"], d2, cm) == es2
            && ImportFile(es2, base, ["servlet", "Bar.class"], d3, cm) == es2 + [DataEntry(base + "servlet/Bar.class", d3, cm)]
  {
    var base := "WEB-INF/classes/";
    var f2, f3 := ["Foo.class"], ["servlet", "Bar.class"];
    assert Join(f2) == "Foo.class";
    var es2 := es1 + [DataEntry(base + "Foo.class", d2, cm)];
    assert EnsureDirs(es1, base, f2, 1, cm) == es1;
    assert f3[..1] == ["servlet"];
    assert Join(f3) == "servlet/Bar.class";
    assert DirPrefix(base, f3, 1) == base + "servlet/";
    assert base + "servlet/" in Names(es2) by {
      assert Names(es2)[2] == base + "servlet/";
    }
    assert EnsureDirs(es2, base, f3, 2, cm) == es2;
    assert EnsureDirs(es2, base, f3, 1, cm) == es2;
  }

  /** The leaf is never looked up: importing a file whose stored name some
      entry already has, for instance the same file a second time, appends a
      second entry of that name. */
  lemma LeafNotDeduplicated(es: seq<Entry>, baseDir: string, file: seq<string>, data: Bytes, cm: CompressionMethod)
    requires LeafName(baseDir, file) in Names(es)
    ensures var r := ImportFile(es, baseDir, file, data, cm);
            && r[|r| - 1].name == LeafName(baseDir, file)
            && exists j :: 0 <= j < |r| - 1 && r[j].name == LeafName(baseDir, file)
  {
    var r := ImportFile(es, baseDir, file, data, cm);
    ImportFileLayout(es, baseDir, file, data, cm);
    var j :| 0 <= j < |es| && Names(es)[j] == LeafName(baseDir, file);
    assert r[j] == r[..|es|][j] == es[j];
  }
}
