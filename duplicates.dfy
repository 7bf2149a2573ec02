/** The metadata duplicate scanner: every recognised metadata file of the
    non-aliasfy package directories is keyed by its component (type, name,
    parent) and by where its type folder sits; a component key seen under
    more than one such location is reported as a duplicate in a Markdown
    report. */
module Duplicates {
  import opened Js

  /** `path.sep` on the runners the scanner is used on. */
  const SEP := '/'

  /** An entry of `packageDirectories`; `aliasfy` is whatever the project
      file holds there. */
  datatype PackageDirectory = PackageDirectory(path: string, aliasfy: JsValue)

  /** A directory the scanner walks. */
  datatype Directory = Directory(path: string, aliasfy: bool)

  /** `readPackageDirectories`: the directories whose `aliasfy` is falsy, in
      order, each marked as not aliasfy. */
  function ReadPackageDirectories(dirs: seq<PackageDirectory>): (r: seq<Directory>)
    ensures forall d :: d in r ==> !d.aliasfy
    ensures forall p :: Directory(p, false) in r <==> exists d :: d in dirs && d.path == p && !Truthy(d.aliasfy)
    ensures |r| <= |dirs|
  {
    if dirs == [] then []
    else
      var rest := ReadPackageDirectories(dirs[1..]);
      assert forall d :: d in dirs[1..] ==> d in dirs;
      if Truthy(dirs[0].aliasfy) then rest else [Directory(dirs[0].path, false)] + rest
  }

  /** One project-file entry gives at most its own directory. */
  lemma ReadOneDirectory(d: PackageDirectory)
    ensures ReadPackageDirectories([d]) == if Truthy(d.aliasfy) then [] else [Directory(d.path, false)]
  {
    assert [d][1..] == [];
  }

  /** The directories are read in the project file's order: reading two
      runs of entries is reading the first, then the second. */
  lemma {:induction false} ReadPackageDirectoriesAppend(a: seq<PackageDirectory>, b: seq<PackageDirectory>)
    ensures ReadPackageDirectories(a + b) == ReadPackageDirectories(a) + ReadPackageDirectories(b)
  {
    if a == [] {
      assert a + b == b;
    } else {
      assert (a + b)[0] == a[0];
      assert (a + b)[1..] == a[1..] + b;
      ReadPackageDirectoriesAppend(a[1..], b);
      if !Truthy(a[0].aliasfy) {
        var x := [Directory(a[0].path, false)];
        assert x + (ReadPackageDirectories(a[1..]) + ReadPackageDirectories(b))
               == (x + ReadPackageDirectories(a[1..])) + ReadPackageDirectories(b);
      }
    }
  }

  /** `indexOf`: the first position of `x` in `parts`. */
  function IndexOf(parts: seq<string>, x: string): (r: Option<nat>)
    ensures r.Some? ==> r.value < |parts| && parts[r.value] == x
                        && forall j :: 0 <= j < r.value ==> parts[j] != x
    ensures r.None? ==> x !in parts
  {
    if parts == [] then None
    else if parts[0] == x then Some(0)
    else
      match IndexOf(parts[1..], x)
      case None => None
      case Some(k) => Some(k + 1)
  }

  /** `extractFolderPathKey`: the path up to and including its first
      segment named `typeDir`, or `""` when there is none (or no type
      directory is known). */
  function ExtractFolderPathKey(filePath: string, typeDir: Option<string>): string
  {
    var parts := Split(filePath, SEP);
    if typeDir.None? then ""
    else match IndexOf(parts, typeDir.value)
      case None => ""
      case Some(i) => Join(parts[..i + 1], SEP)
  }

  /** The folder key is a prefix of the path. When the type directory is a
      segment of the path, the key's segments are those of the path up to
      the first such segment, so the key ends in that segment; otherwise the
      key is empty. */
  lemma FolderKeyShape(filePath: string, typeDir: Option<string>)
    ensures var r := ExtractFolderPathKey(filePath, typeDir);
            StartsWith(filePath, r)
    ensures var r := ExtractFolderPathKey(filePath, typeDir);
            var parts := Split(filePath, SEP);
            if typeDir.Some? && typeDir.value in parts then
              var segs := Split(r, SEP);
              |segs| >= 1 && segs[|segs| - 1] == typeDir.value
              && (forall j :: 0 <= j < |segs| - 1 ==> segs[j] != typeDir.value)
              && |segs| <= |parts| && segs == parts[..|segs|]
            else r == ""
  {
    var parts := Split(filePath, SEP);
    if typeDir.Some? {
      match IndexOf(parts, typeDir.value) {
        case None =>
        case Some(i) =>
          FolderKeyAt(filePath, i, typeDir.value);
          var r := Join(parts[..i + 1], SEP);
          assert ExtractFolderPathKey(filePath, typeDir) == r;
          var segs := Split(r, SEP);
          assert |segs| == i + 1 && segs[i] == typeDir.value && segs == parts[..|segs|];
      }
    }
  }

  /** The key cut at the first `typeDir` segment, found at `i`. */
  lemma FolderKeyAt(filePath: string, i: nat, x: string)
    requires IndexOf(Split(filePath, SEP), x) == Some(i)
    ensures var parts := Split(filePath, SEP);
            var r := Join(parts[..i + 1], SEP);
            var segs := Split(r, SEP);
            StartsWith(filePath, r)
            && |segs| == i + 1 && segs == parts[..i + 1] && segs[i] == x
            && forall j :: 0 <= j < i ==> segs[j] != x
  {
    var parts := Split(filePath, SEP);
    JoinSplit(filePath, SEP);
    JoinPrefix(parts, i + 1, SEP);
    SplitJoin(parts[..i + 1], SEP);
  }

  /** What the metadata resolver makes of a file: its first component. */
  datatype Component = Component(typeId: string, name: string, parentName: Option<string>,
                                 directoryName: Option<string>)

  /** A file the directory walk visits, in the order it visits them.
      `component` is absent when the resolver does not recognise the file
      (it throws or finds nothing). */
  datatype Item = Item(itemPath: string, relativePath: string, component: Option<Component>)

  /** A file the scanner records. */
  datatype FileEntry = FileEntry(path: string, relativePath: string, key: string, extendedKey: string)

  /** `typeId-name`, with `-parentName` when the component has a parent. */
  function Key(c: Component): string
  {
    c.typeId + "-" + c.name + if TruthyString(c.parentName) then "-" + c.parentName.value else ""
  }

  function ExtendedKey(c: Component, itemPath: string): string
  {
    Key(c) + "-path-" + ExtractFolderPathKey(itemPath, c.directoryName)
  }

  /** The extended key starts with the key and `-path-`. */
  lemma ExtendedKeyStartsWithKey(c: Component, itemPath: string)
    ensures StartsWith(ExtendedKey(c, itemPath), Key(c) + "-path-")
  {
  }

  function EntryOf(item: Item): FileEntry
    requires item.component.Some?
  {
    var c := item.component.value;
    FileEntry(item.itemPath, item.relativePath, Key(c), ExtendedKey(c, item.itemPath))
  }

  function ExtendedKeys(files: seq<FileEntry>): set<string>
  {
    set f | f in files :: f.extendedKey
  }

  /** The files `findFilesInFolder` records, in walk order: each recognised
      file whose extended key has not been recorded before. */
  function Found(items: seq<Item>): seq<FileEntry>
  {
    if items == [] then []
    else
      var init := Found(items[..|items| - 1]);
      var item := items[|items| - 1];
      init + if item.component.Some? && EntryOf(item).extendedKey !in ExtendedKeys(init) then [EntryOf(item)] else []
  }

  lemma FoundOneMore(items: seq<Item>, i: nat)
    requires i < |items|
    ensures var init := Found(items[..i]);
            Found(items[..i + 1])
            == init + if items[i].component.Some? && EntryOf(items[i]).extendedKey !in ExtendedKeys(init)
                      then [EntryOf(items[i])] else []
  {
    assert items[..i + 1][..i] == items[..i];
  }

  /** No extended key is recorded twice, and every recognised file's
      extended key is recorded. */
  lemma {:induction false} FoundOnce(items: seq<Item>)
    ensures forall a, b :: 0 <= a < b < |Found(items)| ==> Found(items)[a].extendedKey != Found(items)[b].extendedKey
    ensures forall i :: 0 <= i < |items| && items[i].component.Some? ==>
              EntryOf(items[i]).extendedKey in ExtendedKeys(Found(items))
  {
    if items != [] {
      var init := items[..|items| - 1];
      FoundOnce(init);
      var files := Found(items);
      var before := Found(init);
      assert forall i :: 0 <= i < |init| ==> init[i] == items[i];
      assert ExtendedKeys(before) <= ExtendedKeys(files);
      forall a, b | 0 <= a < b < |files| ensures files[a].extendedKey != files[b].extendedKey {
        if b < |before| {
          assert files[a] == before[a] && files[b] == before[b];
        } else {
          var item := items[|items| - 1];
          assert item.component.Some? && EntryOf(item).extendedKey !in ExtendedKeys(before);
          assert files[b] == EntryOf(item) && files[a] == before[a];
          assert before[a].extendedKey in ExtendedKeys(before);
        }
      }
    }
  }

  /** `findFilesInFolder` over the files of one directory, in walk order. */
  method FindFilesInFolder(items: seq<Item>) returns (files: seq<FileEntry>)
    ensures files == Found(items)
  {
    files := [];
    var existingKeys: set<string> := {};
    var i := 0;
    while i < |items|
      invariant 0 <= i <= |items|
      invariant files == Found(items[..i]) && existingKeys == ExtendedKeys(files)
    {
      FoundOneMore(items, i);
      var item := items[i];
      if item.component.Some? {
        var c := item.component.value;
        var key := Key(c);
        var extendedKey := key + "-path-" + ExtractFolderPathKey(item.itemPath, c.directoryName);
        if extendedKey !in existingKeys {
          files := files + [FileEntry(item.itemPath, item.relativePath, key, extendedKey)];
          existingKeys := existingKeys + {extendedKey};
        }
      }
      i := i + 1;
    }
    assert items[..i] == items;
  }

  /** The paths and extended keys gathered for one key. */
  datatype Group = Group(paths: seq<string>, extendedKeys: set<string>)

  /** `allFiles`: the groups, and the keys in the order they were first
      added (the order `Object.entries` lists them in, as no key is an
      integer). */
  datatype Catalog = Catalog(keys: seq<string>, groups: map<string, Group>)

  /** One file added to the catalogue: its path is appended to its key's
      group only when its extended key is new there. */
  function AddFile(c: Catalog, f: FileEntry): Catalog
  {
    var keys := if f.key in c.groups then c.keys else c.keys + [f.key];
    var g := if f.key in c.groups then c.groups[f.key] else Group([], {});
    if f.extendedKey in g.extendedKeys then Catalog(keys, c.groups[f.key := g])
    else Catalog(keys, c.groups[f.key := Group(g.paths + [f.relativePath], g.extendedKeys + {f.extendedKey})])
  }

  /** The catalogue after adding the files in order. */
  function Catalogued(c: Catalog, files: seq<FileEntry>): (r: Catalog)
    ensures (forall k :: k in c.keys ==> k in c.groups) ==> forall k :: k in r.keys ==> k in r.groups
  {
    if files == [] then c
    else AddFile(Catalogued(c, files[..|files| - 1]), files[|files| - 1])
  }

  /** The keys are listed once each and are exactly the grouped keys; each
      group has one path per distinct extended key. */
  ghost predicate Consistent(c: Catalog)
  {
    (forall a, b :: 0 <= a < b < |c.keys| ==> c.keys[a] != c.keys[b])
    && (forall k :: k in c.groups <==> k in c.keys)
    && (forall k :: k in c.groups ==> |c.groups[k].paths| == |c.groups[k].extendedKeys|)
  }

  lemma AddFileConsistent(c: Catalog, f: FileEntry)
    requires Consistent(c)
    ensures Consistent(AddFile(c, f))
  {
  }

  /** The extended keys of the files with key `k`. */
  function KeyedExtendedKeys(files: seq<FileEntry>, k: string): set<string>
  {
    set f | f in files && f.key == k :: f.extendedKey
  }

  /** The catalogue stays consistent as files are added. */
  lemma {:induction false} CataloguedConsistent(c: Catalog, files: seq<FileEntry>)
    requires Consistent(c)
    ensures Consistent(Catalogued(c, files))
  {
    if files != [] {
      CataloguedConsistent(c, files[..|files| - 1]);
      AddFileConsistent(Catalogued(c, files[..|files| - 1]), files[|files| - 1]);
    }
  }

  /** After the files, a key is grouped exactly when some file carries it,
      and its group holds the extended keys of those files and nothing
      else. */
  lemma {:induction false} CataloguedGroups(files: seq<FileEntry>)
    ensures forall k :: k in Catalogued(Catalog([], map[]), files).groups <==> exists f :: f in files && f.key == k
    ensures forall k :: k in Catalogued(Catalog([], map[]), files).groups ==>
              Catalogued(Catalog([], map[]), files).groups[k].extendedKeys == KeyedExtendedKeys(files, k)
  {
    if files != [] {
      var init := files[..|files| - 1];
      var f := files[|files| - 1];
      CataloguedGroups(init);
      var c := Catalogued(Catalog([], map[]), init);
      assert Catalogued(Catalog([], map[]), files) == AddFile(c, f);
      assert files == init + [f];
      forall k ensures KeyedExtendedKeys(files, k)
                       == KeyedExtendedKeys(init, k) + (if f.key == k then {f.extendedKey} else {}) {
      }
    }
  }

  /** An entry of the report. */
  datatype Duplicate = Duplicate(key: string, paths: seq<string>)

  /** The `filter` and `map` over `Object.entries(allFiles)`. */
  function DuplicatesOf(c: Catalog, keys: seq<string>): seq<Duplicate>
    requires forall k :: k in keys ==> k in c.groups
  {
    if keys == [] then []
    else
      var k := keys[|keys| - 1];
      var g := c.groups[k];
      DuplicatesOf(c, keys[..|keys| - 1]) + if |g.extendedKeys| > 1 && |g.paths| > 1 then [Duplicate(k, g.paths)] else []
  }

  /** A listed key is reported, with its paths, exactly when its group has
      more than one extended key and more than one path. */
  lemma {:induction false} DuplicatesOfMembers(c: Catalog, keys: seq<string>, k: string)
    requires forall k :: k in keys ==> k in c.groups
    ensures (exists d :: d in DuplicatesOf(c, keys) && d.key == k)
            <==> k in keys && |c.groups[k].extendedKeys| > 1 && |c.groups[k].paths| > 1
    ensures forall d :: d in DuplicatesOf(c, keys) ==> d.key in c.groups && d.paths == c.groups[d.key].paths
  {
    if keys != [] {
      var init := keys[..|keys| - 1];
      assert forall k :: k in init ==> k in keys;
      DuplicatesOfMembers(c, init, k);
      assert keys == init + [keys[|keys| - 1]];
    }
  }

  /** A component key is reported exactly when the files carrying it lie
      under more than one distinct folder key, that is, have more than one
      distinct extended key. */
  lemma DuplicateExactly(files: seq<FileEntry>, k: string)
    ensures var c := Catalogued(Catalog([], map[]), files);
            (exists d :: d in DuplicatesOf(c, c.keys) && d.key == k)
            <==> (exists f :: f in files && f.key == k) && |KeyedExtendedKeys(files, k)| > 1
  {
    var c := Catalogued(Catalog([], map[]), files);
    CataloguedGroups(files);
    CataloguedConsistent(Catalog([], map[]), files);
    DuplicatesOfMembers(c, c.keys, k);
    if k in c.groups {
      assert |c.groups[k].paths| == |c.groups[k].extendedKeys|;
    }
  }

  /** `allFiles`, which `compareDirectoriesAndFindDuplicates` fills in place. */
  class FileIndex {
    var keys: seq<string>
    var groups: map<string, Group>

    function Contents(): Catalog
      reads this
    {
      Catalog(keys, groups)
    }

    constructor()
      ensures Contents() == Catalog([], map[])
    {
      keys := [];
      groups := map[];
    }

    method Add(f: FileEntry)
      modifies this
      ensures Contents() == AddFile(old(Contents()), f)
    {
      if f.key !in groups {
        groups := groups[f.key := Group([], {})];
        keys := keys + [f.key];
      }
      var g := groups[f.key];
      if f.extendedKey !in g.extendedKeys {
        groups := groups[f.key := Group(g.paths + [f.relativePath], g.extendedKeys + {f.extendedKey})];
      }
    }
  }

  /** All files of the directories, in order: each directory's walk, with
      its own set of seen extended keys. */
  function AllFiles(walks: seq<seq<Item>>): seq<FileEntry>
  {
    if walks == [] then [] else AllFiles(walks[..|walks| - 1]) + Found(walks[|walks| - 1])
  }

  function Note(relativePath: string): string
  {
    "Note: File \"" + relativePath + "\" is in an 'aliasfy' directory."
  }

  /** The notes for the files of aliasfy directories. */
  function Notes(dirs: seq<Directory>, walks: seq<seq<Item>>): seq<string>
    requires |walks| == |dirs|
  {
    if dirs == [] then []
    else
      var files := Found(walks[|walks| - 1]);
      Notes(dirs[..|dirs| - 1], walks[..|walks| - 1])
      + if dirs[|dirs| - 1].aliasfy then seq(|files|, i requires 0 <= i < |files| => Note(files[i].relativePath)) else []
  }

  /** Directories read from the project file are never aliasfy, so no note
      is ever produced. */
  lemma {:induction false} NoNotes(dirs: seq<Directory>, walks: seq<seq<Item>>)
    requires |walks| == |dirs| && forall i :: 0 <= i < |dirs| ==> !dirs[i].aliasfy
    ensures Notes(dirs, walks) == []
  {
    if dirs != [] {
      NoNotes(dirs[..|dirs| - 1], walks[..|walks| - 1]);
    }
  }

  /** The inner `forEach` of one directory: its files added to the index,
      and a note for each when the directory is aliasfy. */
  method AddDirectory(index: FileIndex, files: seq<FileEntry>, aliasfy: bool) returns (notes: seq<string>)
    modifies index
    ensures index.Contents() == Catalogued(old(index.Contents()), files)
    ensures notes == if aliasfy then seq(|files|, i requires 0 <= i < |files| => Note(files[i].relativePath)) else []
  {
    notes := [];
    var j := 0;
    while j < |files|
      invariant 0 <= j <= |files|
      invariant index.Contents() == Catalogued(old(index.Contents()), files[..j])
      invariant notes == if aliasfy then seq(j, i requires 0 <= i < j => Note(files[i].relativePath)) else []
    {
      assert files[..j + 1][..j] == files[..j];
      index.Add(files[j]);
      if aliasfy {
        notes := notes + [Note(files[j].relativePath)];
      }
      j := j + 1;
    }
    assert files[..j] == files;
  }

  /** Adding two runs of files is adding their concatenation. */
  lemma {:induction false} CataloguedConcat(c: Catalog, a: seq<FileEntry>, b: seq<FileEntry>)
    ensures Catalogued(Catalogued(c, a), b) == Catalogued(c, a + b)
    decreases |b|
  {
    if b == [] {
      assert a + b == a;
    } else {
      CataloguedConcat(c, a, b[..|b| - 1]);
      assert (a + b)[..|a + b| - 1] == a + b[..|b| - 1];
    }
  }

  /** The `forEach` over the directories: every directory walked and its
      files added to a fresh index, in order. */
  method IndexDirectories(dirs: seq<Directory>, walks: seq<seq<Item>>)
    returns (c: Catalog, aliasfyNotes: seq<string>)
    requires |walks| == |dirs|
    ensures c == Catalogued(Catalog([], map[]), AllFiles(walks))
    ensures aliasfyNotes == Notes(dirs, walks)
  {
    var index := new FileIndex();
    aliasfyNotes := [];
    var i := 0;
    while i < |dirs|
      invariant 0 <= i <= |dirs|
      invariant index.Contents() == Catalogued(Catalog([], map[]), AllFiles(walks[..i]))
      invariant aliasfyNotes == Notes(dirs[..i], walks[..i])
    {
      assert walks[..i + 1][..i] == walks[..i] && dirs[..i + 1][..i] == dirs[..i];
      var files := FindFilesInFolder(walks[i]);
      var notes := AddDirectory(index, files, dirs[i].aliasfy);
      CataloguedConcat(Catalog([], map[]), AllFiles(walks[..i]), files);
      aliasfyNotes := aliasfyNotes + notes;
      i := i + 1;
    }
    assert walks[..i] == walks && dirs[..i] == dirs;
    c := index.Contents();
  }

  /** The `filter` and `map` over the entries of the index, in key order. */
  method SelectDuplicates(c: Catalog) returns (duplicates: seq<Duplicate>)
    requires forall k :: k in c.keys ==> k in c.groups
    ensures duplicates == DuplicatesOf(c, c.keys)
  {
    duplicates := [];
    var k := 0;
    while k < |c.keys|
      invariant 0 <= k <= |c.keys|
      invariant duplicates == DuplicatesOf(c, c.keys[..k])
    {
      assert c.keys[..k + 1][..k] == c.keys[..k];
      var g := c.groups[c.keys[k]];
      if |g.extendedKeys| > 1 && |g.paths| > 1 {
        duplicates := duplicates + [Duplicate(c.keys[k], g.paths)];
      }
      k := k + 1;
    }
    assert c.keys[..k] == c.keys;
  }

  /** `compareDirectoriesAndFindDuplicates`; `walks[i]` are the files the
      walk of `dirs[i]` visits, in order. */
  method CompareDirectoriesAndFindDuplicates(dirs: seq<Directory>, walks: seq<seq<Item>>)
    returns (duplicates: seq<Duplicate>, aliasfyNotes: seq<string>)
    requires |walks| == |dirs|
    ensures var c := Catalogued(Catalog([], map[]), AllFiles(walks));
            Consistent(c) && duplicates == DuplicatesOf(c, c.keys)
    ensures aliasfyNotes == Notes(dirs, walks)
  {
    var c;
    c, aliasfyNotes := IndexDirectories(dirs, walks);
    CataloguedConsistent(Catalog([], map[]), AllFiles(walks));
    duplicates := SelectDuplicates(c);
  }

  const HEADER := "### \U{1F4C4} Metadata Scanning Report\n\n"
  const NONE_FOUND := "\U{2705} **No duplicate metadata components found.**\n\n"
  const WARNING := "\U{26A0}\U{FE0F} **Warning: Duplicate Components observed:**\n\n"

  function BulletHead(key: string): string
  {
    "- **" + key + "**:\n"
  }

  function PathLine(path: string): string
  {
    "  - `" + path + "`\n"
  }

  function PathLines(paths: seq<string>): string
  {
    if paths == [] then "" else PathLines(paths[..|paths| - 1]) + PathLine(paths[|paths| - 1])
  }

  function Bullets(dups: seq<Duplicate>): string
  {
    if dups == [] then ""
    else
      var d := dups[|dups| - 1];
      Bullets(dups[..|dups| - 1]) + BulletHead(d.key) + PathLines(d.paths)
  }

  /** The report `createMarkdownFile` writes. */
  function Report(dups: seq<Duplicate>): string
  {
    HEADER + if dups == [] then NONE_FOUND else WARNING + Bullets(dups) + "\n"
  }

  /** Every duplicate's bullet line and each of its path lines appear in
      the bullets. */
  lemma {:induction false} BulletsMention(dups: seq<Duplicate>, i: nat, j: nat)
    requires i < |dups| && j < |dups[i].paths|
    ensures Contains(Bullets(dups), BulletHead(dups[i].key))
    ensures Contains(Bullets(dups), PathLine(dups[i].paths[j]))
  {
    var init := dups[..|dups| - 1];
    var d := dups[|dups| - 1];
    var tail := BulletHead(d.key) + PathLines(d.paths);
    assert Bullets(dups) == Bullets(init) + tail;
    if i < |init| {
      assert init[i] == dups[i];
      BulletsMention(init, i, j);
      ContainsAppend(Bullets(init), tail, BulletHead(dups[i].key));
      ContainsAppend(Bullets(init), tail, PathLine(dups[i].paths[j]));
    } else {
      ContainsSelf(BulletHead(d.key));
      ContainsAppend(BulletHead(d.key), PathLines(d.paths), BulletHead(d.key));
      ContainsPrepend(Bullets(init), tail, BulletHead(d.key));
      PathLinesMention(d.paths, j);
      ContainsPrepend(BulletHead(d.key), PathLines(d.paths), PathLine(d.paths[j]));
      ContainsPrepend(Bullets(init), tail, PathLine(d.paths[j]));
    }
  }

  lemma {:induction false} PathLinesMention(paths: seq<string>, j: nat)
    requires j < |paths|
    ensures Contains(PathLines(paths), PathLine(paths[j]))
  {
    var init := paths[..|paths| - 1];
    var last := PathLine(paths[|paths| - 1]);
    if j < |init| {
      assert init[j] == paths[j];
      PathLinesMention(init, j);
      ContainsAppend(PathLines(init), last, PathLine(paths[j]));
    } else {
      ContainsSelf(last);
      ContainsPrepend(PathLines(init), last, last);
    }
  }

  /** The report opens with the header; with no duplicates it says so and
      ends there. */
  lemma ReportShape(dups: seq<Duplicate>)
    ensures StartsWith(Report(dups), HEADER)
    ensures dups == [] <==> Report(dups) == HEADER + NONE_FOUND
  {
    if dups != [] {
      assert Report(dups)[|HEADER|] == WARNING[0];
      assert (HEADER + NONE_FOUND)[|HEADER|] == NONE_FOUND[0];
    }
  }

  /** With duplicates, the report names every duplicated key and each of
      its paths. */
  lemma ReportMentions(dups: seq<Duplicate>, i: nat, j: nat)
    requires i < |dups| && j < |dups[i].paths|
    ensures Contains(Report(dups), BulletHead(dups[i].key))
    ensures Contains(Report(dups), PathLine(dups[i].paths[j]))
  {
    var pre := HEADER + WARNING;
    var b := Bullets(dups);
    assert Report(dups) == pre + b + "\n";
    BulletsMention(dups, i, j);
    ContainsPrepend(pre, b, BulletHead(dups[i].key));
    ContainsAppend(pre + b, "\n", BulletHead(dups[i].key));
    ContainsPrepend(pre, b, PathLine(dups[i].paths[j]));
    ContainsAppend(pre + b, "\n", PathLine(dups[i].paths[j]));
  }

  /** The inner `forEach` of `createMarkdownFile`: one line per path. */
  method AppendPaths(content: string, paths: seq<string>) returns (content': string)
    ensures content' == content + PathLines(paths)
  {
    content' := content;
    var j := 0;
    while j < |paths|
      invariant 0 <= j <= |paths|
      invariant content' == content + PathLines(paths[..j])
    {
      assert paths[..j + 1][..j] == paths[..j];
      content' := content' + PathLine(paths[j]);
      j := j + 1;
    }
    assert paths[..j] == paths;
  }

  lemma BulletsOneMore(dups: seq<Duplicate>, i: nat)
    requires i < |dups|
    ensures Bullets(dups[..i + 1]) == Bullets(dups[..i]) + BulletHead(dups[i].key) + PathLines(dups[i].paths)
  {
    assert dups[..i + 1][..i] == dups[..i];
  }

  lemma Regroup(a: string, b: string, c: string, d: string)
    ensures a + b + c + d == a + (b + c + d)
  {
  }

  /** The outer `forEach`: one bullet per duplicate, with its paths. */
  method AppendBullets(content: string, dups: seq<Duplicate>) returns (content': string)
    ensures content' == content + Bullets(dups)
  {
    content' := content;
    var i := 0;
    while i < |dups|
      invariant 0 <= i <= |dups|
      invariant content' == content + Bullets(dups[..i])
    {
      BulletsOneMore(dups, i);
      ghost var before := Bullets(dups[..i]);
      var head := BulletHead(dups[i].key);
      ghost var lines := PathLines(dups[i].paths);
      content' := AppendPaths(content' + head, dups[i].paths);
      Regroup(content, before, head, lines);
      i := i + 1;
    }
    assert dups[..i] == dups;
  }

  /** `createMarkdownFile`: the report built with `+=`, as written to the
      output file. */
  method CreateMarkdownFile(dups: seq<Duplicate>) returns (content: string)
    ensures content == Report(dups)
  {
    content := HEADER;
    if |dups| == 0 {
      content := content + NONE_FOUND;
    } else {
      content := content + WARNING;
      content := AppendBullets(content, dups);
      content := content + "\n";
    }
  }
}
