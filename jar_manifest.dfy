/** The manifest `Jar#build_manifest` writes (lib/rex/zip/archive.rb:98-118):
    its text, and the find-or-create step that stores it in the entry list. */
module JarManifest {
  import opened ZipEntry

  const ManifestName: string := "META-INF/MANIFEST.MF"
  const ManifestDir: string := "META-INF/"

  predicate EndsWith(s: string, suffix: string)
  {
    |suffix| <= |s| && s[|s| - |suffix|..] == suffix
  }

  /** `name =~ /\.class$/`, read as "ends with .class". */
  predicate IsClassFile(name: string)
  {
    EndsWith(name, ".class")
  }

  /** The header block: the version line, the Main-Class line when one is given, a blank line. */
  function Header(mainClass: Option<string>): string
  {
    "Manifest-Version: 1.0\r\n"
    + (if mainClass.Some? then "Main-Class: " + mainClass.value + "\r\n" else "")
    + "\r\n"
  }

  /** The line naming one class file. */
  function NameLine(name: string): string
  {
    "Name: " + name + "\r\n"
  }

  /** The block naming one class file: its Name line and a blank line, with the digest line left out. */
  function NameBlock(name: string): string
  {
    NameLine(name) + "\r\n"
  }

  /** The Name blocks of the class-file entries of es, in entry order. */
  function ClassBlocks(es: seq<Entry>): string
  {
    if es == [] then ""
    else
      var last := es[|es| - 1];
      ClassBlocks(es[..|es| - 1]) + (if IsClassFile(last.name) then NameBlock(last.name) else "")
  }

  /** The text `build_manifest` leaves in `@manifest` for an archive holding es. */
  function ManifestText(es: seq<Entry>, mainClass: Option<string>): string
  {
    Header(mainClass) + ClassBlocks(es)
  }

  /** The position of the last entry named n: the one the scan of
      `build_manifest` is left holding when several share the name. */
  function LastIndexNamed(es: seq<Entry>, n: string): (r: Option<nat>)
    ensures r.Some? ==> r.value < |es| && es[r.value].name == n
    ensures r.Some? ==> forall j :: r.value < j < |es| ==> es[j].name != n
    ensures r.None? ==> forall j :: 0 <= j < |es| ==> es[j].name != n
  {
    if es == [] then None
    else if es[|es| - 1].name == n then Some(|es| - 1)
    else LastIndexNamed(es[..|es| - 1], n)
  }

  /** Find-or-create on the manifest entry: overwrite the data of the last
      entry named META-INF/MANIFEST.MF, or append META-INF/ (empty data) and
      then the manifest, both as `add_file(name, data)` builds them. */
  function WithManifest(es: seq<Entry>, text: string, cm: CompressionMethod): seq<Entry>
  {
    match LastIndexNamed(es, ManifestName)
    case Some(k) => es[k := es[k].(data := Some(text))]
    case None => es + [DataEntry(ManifestDir, "", cm), DataEntry(ManifestName, text, cm)]
  }

  /** How many entries of es are named n. */
  function CountNamed(es: seq<Entry>, n: string): nat
  {
    if es == [] then 0
    else CountNamed(es[..|es| - 1], n) + (if es[|es| - 1].name == n then 1 else 0)
  }

  lemma {:induction false} ClassBlocksConcat(a: seq<Entry>, b: seq<Entry>)
    ensures ClassBlocks(a + b) == ClassBlocks(a) + ClassBlocks(b)
    decreases |b|
  {
    if b == [] {
      assert a + b == a;
    } else {
      var b', x := b[..|b| - 1], b[|b| - 1];
      SplitLast(a, b);
      ClassBlocksSnoc(a + b', x);
      ClassBlocksSnoc(b', x);
      ClassBlocksConcat(a, b');
      BytesAssoc(ClassBlocks(a), ClassBlocks(b'), if IsClassFile(x.name) then NameBlock(x.name) else "");
    }
  }

  /** A non-empty entry list b, alone or after a, is its front followed by its last entry. */
  lemma SplitLast(a: seq<Entry>, b: seq<Entry>)
    requires b != []
    ensures b == b[..|b| - 1] + [b[|b| - 1]]
    ensures a + b == (a + b[..|b| - 1]) + [b[|b| - 1]]
  {
  }

  /** The scan of `build_manifest`, one entry further: given the text so far,
      a class file appends its Name line and then a blank line, and any other
      entry appends nothing. */
  lemma ManifestTextSnoc(es: seq<Entry>, e: Entry, mainClass: Option<string>, before: string, after: string)
    requires before == ManifestText(es, mainClass)
    requires after == if IsClassFile(e.name) then before + NameLine(e.name) + "\r\n" else before
    ensures after == ManifestText(es + [e], mainClass)
  {
    ClassBlocksSnoc(es, e);
    var h, blocks := Header(mainClass), ClassBlocks(es);
    if IsClassFile(e.name) {
      BytesAssoc(before, NameLine(e.name), "\r\n");
      BytesAssoc(h, blocks, NameBlock(e.name));
    } else {
      assert blocks + [] == blocks;
    }
  }

  /** One more entry adds its Name block when it is a class file, and nothing otherwise. */
  lemma ClassBlocksSnoc(es: seq<Entry>, e: Entry)
    ensures ClassBlocks(es + [e]) == ClassBlocks(es) + (if IsClassFile(e.name) then NameBlock(e.name) else [])
  {
    assert (es + [e])[..|es|] == es;
  }

  /** The manifest starts with its header block, and each class-file entry i
      has its Name block right after the header and the blocks of the
      class files before it, so the class files are listed in entry order. */
  lemma ManifestListsClassFile(es: seq<Entry>, mainClass: Option<string>, i: nat)
    requires i < |es| && IsClassFile(es[i].name)
    ensures var text := ManifestText(es, mainClass);
            var at := |Header(mainClass)| + |ClassBlocks(es[..i])|;
            var block := NameBlock(es[i].name);
            && text[..|Header(mainClass)|] == Header(mainClass)
            && at + |block| <= |text|
            && text[at..at + |block|] == block
  {
    var h, before, block := Header(mainClass), ClassBlocks(es[..i]), NameBlock(es[i].name);
    var rest := ClassBlocks(es[i + 1..]);
    ClassBlocksAround(es, i);
    SliceAfterHeader(h, before, block, rest);
  }

  /** The blocks of the entries before a class file, its block, then the blocks of the entries after it. */
  lemma ClassBlocksAround(es: seq<Entry>, i: nat)
    requires i < |es| && IsClassFile(es[i].name)
    ensures ClassBlocks(es) == ClassBlocks(es[..i]) + NameBlock(es[i].name) + ClassBlocks(es[i + 1..])
  {
    var pre, post := es[..i], es[i + 1..];
    SplitAround(es, i);
    ClassBlocksSnoc(pre, es[i]);
    ClassBlocksConcat(pre + [es[i]], post);
  }

  /** An entry list is the entries before i, entry i and the entries after it. */
  lemma SplitAround(es: seq<Entry>, i: nat)
    requires i < |es|
    ensures (es[..i] + [es[i]]) + es[i + 1..] == es
  {
    assert es[..i] + [es[i]] == es[..i + 1];
  }

  /** Reading a header, the blocks before one block, the block and the rest back out of their concatenation. */
  lemma SliceAfterHeader(h: string, before: string, block: string, rest: string)
    ensures var t := h + (before + block + rest);
            && t[..|h|] == h
            && |h| + |before| + |block| <= |t|
            && t[|h| + |before|..|h| + |before| + |block|] == block
  {
    var t := h + (before + block + rest);
    assert t[|h|..] == before + block + rest;
    assert (before + block + rest)[|before|..|before| + |block|] == block;
  }

  /** Entries that are not class files contribute nothing: with none, the manifest is the header alone. */
  lemma {:induction false} ManifestWithoutClassFiles(es: seq<Entry>, mainClass: Option<string>)
    requires forall i :: 0 <= i < |es| ==> !IsClassFile(es[i].name)
    ensures ManifestText(es, mainClass) == Header(mainClass)
    decreases |es|
  {
    if es != [] {
      ManifestWithoutClassFiles(es[..|es| - 1], mainClass);
    }
  }

  /** With a manifest entry present, the entry count and every name stay, and
      only the last manifest entry changes, in its data alone, to the new text;
      without one, exactly META-INF/ and then the manifest are appended. In
      both cases the last manifest entry afterwards carries the new text. */
  lemma FindOrCreateManifest(es: seq<Entry>, text: string, cm: CompressionMethod)
    ensures var r := WithManifest(es, text, cm);
            match LastIndexNamed(es, ManifestName)
            case Some(k) =>
              && |r| == |es| && Names(r) == Names(es)
              && (forall j :: 0 <= j < |es| && j != k ==> r[j] == es[j])
              && r[k] == es[k].(data := Some(text))
            case None =>
              r == es + [DataEntry(ManifestDir, "", cm), DataEntry(ManifestName, text, cm)]
    ensures var r := WithManifest(es, text, cm);
            && LastIndexNamed(r, ManifestName).Some?
            && r[LastIndexNamed(r, ManifestName).value].data == Some(text)
  {
    var r := WithManifest(es, text, cm);
    match LastIndexNamed(es, ManifestName)
    case Some(k) =>
      assert Names(r) == Names(es);
      LastIndexStable(es, r, ManifestName);
    case None =>
      assert r[|r| - 1].name == ManifestName;
      assert r[..|r| - 1][..|r| - 2] == es;
      assert ManifestDir != ManifestName;
  }

  /** Two entry lists with the same names agree on the last entry with a given name. */
  lemma {:induction false} LastIndexStable(a: seq<Entry>, b: seq<Entry>, n: string)
    requires Names(a) == Names(b)
    ensures LastIndexNamed(a, n) == LastIndexNamed(b, n)
    decreases |a|
  {
    assert |a| == |Names(a)| == |Names(b)| == |b|;
    if a != [] {
      assert a[|a| - 1].name == Names(a)[|a| - 1] == b[|b| - 1].name;
      assert Names(a[..|a| - 1]) == Names(a)[..|a| - 1];
      assert Names(b[..|b| - 1]) == Names(b)[..|b| - 1];
      LastIndexStable(a[..|a| - 1], b[..|b| - 1], n);
    }
  }

  /** Counting names through the list of names. */
  lemma {:induction false} CountNamedStable(a: seq<Entry>, b: seq<Entry>, n: string)
    requires Names(a) == Names(b)
    ensures CountNamed(a, n) == CountNamed(b, n)
    decreases |a|
  {
    assert |a| == |Names(a)| == |Names(b)| == |b|;
    if a != [] {
      assert a[|a| - 1].name == Names(a)[|a| - 1] == b[|b| - 1].name;
      assert Names(a[..|a| - 1]) == Names(a)[..|a| - 1];
      assert Names(b[..|b| - 1]) == Names(b)[..|b| - 1];
      CountNamedStable(a[..|a| - 1], b[..|b| - 1], n);
    }
  }

  /** Building the manifest never adds a second manifest entry: with none
      before there is exactly one afterwards, and otherwise the count of
      manifest entries does not change. */
  lemma ManifestCount(es: seq<Entry>, text: string, cm: CompressionMethod)
    ensures CountNamed(WithManifest(es, text, cm), ManifestName)
            == if CountNamed(es, ManifestName) == 0 then 1 else CountNamed(es, ManifestName)
  {
    var r := WithManifest(es, text, cm);
    match LastIndexNamed(es, ManifestName)
    case Some(k) =>
      assert Names(r) == Names(es);
      CountNamedStable(r, es, ManifestName);
      CountNamedPositive(es, ManifestName, k);
    case None =>
      CountNamedAbsent(es, ManifestName);
      assert r[..|r| - 1][..|r| - 2] == es;
      assert ManifestDir != ManifestName;
  }

  lemma {:induction false} CountNamedPositive(es: seq<Entry>, n: string, k: nat)
    requires k < |es| && es[k].name == n
    ensures CountNamed(es, n) > 0
    decreases |es|
  {
    if k < |es| - 1 {
      CountNamedPositive(es[..|es| - 1], n, k);
    }
  }

  lemma {:induction false} CountNamedAbsent(es: seq<Entry>, n: string)
    requires forall j :: 0 <= j < |es| ==> es[j].name != n
    ensures CountNamed(es, n) == 0
    decreases |es|
  {
    if es != [] {
      CountNamedAbsent(es[..|es| - 1], n);
    }
  }

  /** A second `build_manifest` adds no entries and changes no names: it only
      overwrites the manifest entry the first call put in place. */
  lemma SecondBuildAddsNothing(es: seq<Entry>, text1: string, text2: string, cm: CompressionMethod)
    ensures var once := WithManifest(es, text1, cm);
            var twice := WithManifest(once, text2, cm);
            |twice| == |once| && Names(twice) == Names(once)
  {
    var once := WithManifest(es, text1, cm);
    FindOrCreateManifest(es, text1, cm);
    FindOrCreateManifest(once, text2, cm);
  }

  /** The source appends META-INF/ without looking for it: building the
      manifest of an archive with no manifest entry adds one more META-INF/
      entry whatever its entries are, so an archive already holding META-INF/
      ends up with at least two. */
  lemma ManifestDirNotDeduplicated(es: seq<Entry>, text: string, cm: CompressionMethod)
    requires LastIndexNamed(es, ManifestName).None?
    ensures CountNamed(WithManifest(es, text, cm), ManifestDir) == CountNamed(es, ManifestDir) + 1
    ensures ManifestDir in Names(es) ==> CountNamed(WithManifest(es, text, cm), ManifestDir) >= 2
  {
    var d := DataEntry(ManifestDir, "", cm);
    var r := WithManifest(es, text, cm);
    assert r[..|r| - 1] == es + [d];
    assert (es + [d])[..|es|] == es;
    assert ManifestDir != ManifestName;
    if ManifestDir in Names(es) {
      var k :| 0 <= k < |es| && Names(es)[k] == ManifestDir;
      CountNamedPositive(es, ManifestDir, k);
    }
  }
}
