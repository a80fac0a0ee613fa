/**
  Discovery of the Grasshopper plug-in assemblies to load at start-up: the `.ghlink`
  reader (`EnumGHLink`) and the merge of the default library folders
  (`GetAssembliesList`). The filesystem is a given snapshot; the code only reads it.
 */
module Assemblies {

  import opened Wrappers
  import opened Text
  import opened OrderedMap

  /**
    What enumerating a folder yields: the full names found, a missing folder
    (`DirectoryNotFoundException`, which the code catches), or any other failure.
   */
  datatype Listing = Found(names: seq<Path>) | NotFound | Failed

  /** The filesystem as the discovery code observes it. */
  datatype FileSystem = FileSystem(
    files: set<Path>,                  // `File.Exists`
    directories: set<Path>,            // `Directory.Exists`
    contents: map<Path, seq<string>>,  // `File.ReadAllLines`; a path missing here makes the read throw
    ghaTop: map<Path, Listing>,        // `EnumerateFiles("*.gha")` in the folder itself
    ghaAll: map<Path, Listing>,        // `EnumerateFiles("*.gha", SearchOption.AllDirectories)`
    ghlinkTop: map<Path, Listing>)     // `EnumerateFiles("*.ghlink", SearchOption.TopDirectoryOnly)`

  /** A folder the snapshot says nothing about does not exist. */
  function ListingOf(m: map<Path, Listing>, folder: Path): Listing
  {
    if folder in m then m[folder] else NotFound
  }

  /** The outcome of reading a link file: whether it completed, and what it appended. */
  datatype Scan = Scan(ok: bool, added: seq<Path>)

  /** Sequencing: after a failure nothing more is read. */
  function Then(first: Scan, rest: Scan): Scan
  {
    if !first.ok then first else Scan(rest.ok, first.added + rest.added)
  }

  /** A trimmed `.ghlink` line names something unless it is blank or a `#` or `//` comment. */
  predicate IsLinkEntry(line: string)
  {
    line != "" && !StartsWith(line, "#") && !StartsWith(line, "//")
  }

  /** The enumerated names that really have the ".gha" extension, in order. */
  function GhaOnly(names: seq<Path>): (r: seq<Path>)
  {
    if names == [] then []
    else (if HasGhaExtension(names[0]) then [names[0]] else []) + GhaOnly(names[1..])
  }

  /** A name is collected exactly when it was enumerated and has the ".gha" extension. */
  lemma {:induction false} GhaOnlyMember(names: seq<Path>, p: Path)
    ensures p in GhaOnly(names) <==> p in names && HasGhaExtension(p)
  {
    if names != [] {
      GhaOnlyMember(names[1..], p);
      assert names == [names[0]] + names[1..];
    }
  }

  lemma {:induction false} GhaOnlyAppend(a: seq<Path>, b: seq<Path>)
    ensures GhaOnly(a + b) == GhaOnly(a) + GhaOnly(b)
  {
    if a == [] {
      assert a + b == b;
    } else {
      var head := if HasGhaExtension(a[0]) then [a[0]] else [];
      assert (a + b)[0] == a[0] && (a + b)[1..] == a[1..] + b;
      assert GhaOnly(a + b) == head + GhaOnly(a[1..] + b);
      GhaOnlyAppend(a[1..], b);
      assert head + (GhaOnly(a[1..]) + GhaOnly(b)) == (head + GhaOnly(a[1..])) + GhaOnly(b);
    }
  }

  lemma GhaOnlyStep(names: seq<Path>, j: nat)
    requires j < |names|
    ensures GhaOnly(names[..j + 1]) == GhaOnly(names[..j]) + (if HasGhaExtension(names[j]) then [names[j]] else [])
  {
    assert names[..j + 1] == names[..j] + [names[j]];
    GhaOnlyAppend(names[..j], [names[j]]);
    assert [names[j]][1..] == [];
  }

  /** What one line of a `.ghlink` file contributes. */
  function LineScan(fs: FileSystem, fullLine: string): Scan
  {
    var line := Trim(fullLine);
    if !IsLinkEntry(line) then Scan(true, [])
    else if line in fs.files then Scan(true, [line])
    else if line in fs.directories then
      match ListingOf(fs.ghaTop, line)
      case NotFound => Scan(true, [])
      case Failed => Scan(false, [])
      case Found(names) => Scan(true, GhaOnly(names))
    else Scan(true, [])
  }

  /** The lines of a `.ghlink` file, read in order until one of them fails. */
  function LinesScan(fs: FileSystem, lines: seq<string>): Scan
  {
    if lines == [] then Scan(true, [])
    else Then(LineScan(fs, lines[0]), LinesScan(fs, lines[1..]))
  }

  /** `EnumGHLink`: an unreadable link file fails before appending anything. */
  function LinkScan(fs: FileSystem, linkPath: Path): Scan
  {
    if linkPath in fs.contents then LinesScan(fs, fs.contents[linkPath]) else Scan(false, [])
  }

  /** One line of the link file read after `acc` has been appended. */
  lemma LinesScanStep(fs: FileSystem, lines: seq<string>, i: nat, acc: seq<Path>)
    requires i < |lines|
    ensures var line := LineScan(fs, lines[i]);
      Then(Scan(true, acc), LinesScan(fs, lines[i..]))
      == if line.ok then Then(Scan(true, acc + line.added), LinesScan(fs, lines[i + 1..]))
         else Scan(false, acc + line.added)
  {
    assert lines[i..][0] == lines[i] && lines[i..][1..] == lines[i + 1..];
    var line, rest := LineScan(fs, lines[i]), LinesScan(fs, lines[i + 1..]);
    if line.ok {
      AppendAssociative(acc, line.added, rest.added);
    }
  }

  /**
    Only trimmed entry lines matter: a `.ghlink` file reads exactly like the list of its
    trimmed lines with the blank and comment lines removed.
   */
  lemma {:induction false} LinesScanEntriesOnly(fs: FileSystem, lines: seq<string>)
    ensures LinesScan(fs, lines) == LinesScan(fs, TrimmedEntries(lines))
  {
    if lines != [] {
      var t := Trim(lines[0]);
      var rest := TrimmedEntries(lines[1..]);
      LinesScanEntriesOnly(fs, lines[1..]);
      var tail := LinesScan(fs, lines[1..]);
      assert LinesScan(fs, lines) == Then(LineScan(fs, lines[0]), tail);
      if IsLinkEntry(t) {
        TrimIdempotent(lines[0]);
        assert LineScan(fs, t) == LineScan(fs, lines[0]);
        assert TrimmedEntries(lines) == [t] + rest;
        assert ([t] + rest)[0] == t && ([t] + rest)[1..] == rest;
        assert LinesScan(fs, [t] + rest) == Then(LineScan(fs, t), LinesScan(fs, rest));
      } else {
        assert TrimmedEntries(lines) == rest;
        assert LineScan(fs, lines[0]) == Scan(true, []);
        assert [] + tail.added == tail.added;
      }
    }
  }

  /** The trimmed lines that are neither blank nor comments, in order. */
  function TrimmedEntries(lines: seq<string>): (r: seq<string>)
    ensures forall l :: l in r ==> IsLinkEntry(l) && Trim(l) == l
  {
    if lines == [] then []
    else
      var t := Trim(lines[0]);
      TrimIdempotent(lines[0]);
      (if IsLinkEntry(t) then [t] else []) + TrimmedEntries(lines[1..])
  }

  /**
    Where every appended path comes from: an entry line that names an existing file is
    appended as written; an entry line that names a folder contributes the files of that
    folder whose extension is exactly ".gha".
   */
  lemma {:induction false} LinesScanSources(fs: FileSystem, lines: seq<string>, p: Path)
    requires p in LinesScan(fs, lines).added
    ensures exists i :: 0 <= i < |lines| && LineSource(fs, Trim(lines[i]), p)
  {
    var s := LineScan(fs, lines[0]);
    if p in s.added {
      var line := Trim(lines[0]);
      if line !in fs.files && line in fs.directories && ListingOf(fs.ghaTop, line).Found? {
        GhaOnlyMember(ListingOf(fs.ghaTop, line).names, p);
      }
      assert LineSource(fs, line, p);
    } else {
      LinesScanSources(fs, lines[1..], p);
      var i :| 0 <= i < |lines[1..]| && LineSource(fs, Trim(lines[1..][i]), p);
      assert lines[1..][i] == lines[i + 1];
    }
  }

  ghost predicate LineSource(fs: FileSystem, line: string, p: Path)
  {
    IsLinkEntry(line)
    && ((line in fs.files && p == line)
        || (line !in fs.files && line in fs.directories && ListingOf(fs.ghaTop, line).Found?
            && p in ListingOf(fs.ghaTop, line).names && HasGhaExtension(p)))
  }

  /**
    A failure ends the reading: when line `i` is the first to fail, the result is a failure
    that keeps exactly what the lines before it appended.
   */
  lemma {:induction false} LinesScanStopsAtFailure(fs: FileSystem, lines: seq<string>, i: nat)
    requires i < |lines| && !LineScan(fs, lines[i]).ok
    requires forall j :: 0 <= j < i ==> LineScan(fs, lines[j]).ok
    ensures LinesScan(fs, lines) == Scan(false, LinesScan(fs, lines[..i]).added)
    ensures LinesScan(fs, lines[..i]).ok
  {
    if i > 0 {
      LinesScanStopsAtFailure(fs, lines[1..], i - 1);
      assert lines[..i][1..] == lines[1..][..i - 1];
    }
  }

  lemma ThenAssociative(a: Scan, b: Scan, c: Scan)
    ensures Then(Then(a, b), c) == Then(a, Then(b, c))
  {
    if a.ok && b.ok {
      AppendAssociative(a.added, b.added, c.added);
    }
  }

  /** Reading two runs of lines is reading the first, then, if it completed, the second. */
  lemma {:induction false} LinesScanAppend(fs: FileSystem, a: seq<string>, b: seq<string>)
    ensures LinesScan(fs, a + b) == Then(LinesScan(fs, a), LinesScan(fs, b))
  {
    if a == [] {
      assert a + b == b;
      assert [] + LinesScan(fs, b).added == LinesScan(fs, b).added;
    } else {
      assert (a + b)[0] == a[0] && (a + b)[1..] == a[1..] + b;
      LinesScanAppend(fs, a[1..], b);
      ThenAssociative(LineScan(fs, a[0]), LinesScan(fs, a[1..]), LinesScan(fs, b));
    }
  }

  /** A link file reads to the end exactly when none of its lines fails. */
  lemma {:induction false} LinesScanOk(fs: FileSystem, lines: seq<string>)
    ensures LinesScan(fs, lines).ok <==> forall j :: 0 <= j < |lines| ==> LineScan(fs, lines[j]).ok
  {
    if lines != [] {
      LinesScanOk(fs, lines[1..]);
      assert forall j :: 0 <= j < |lines| - 1 ==> lines[1..][j] == lines[j + 1];
    }
  }

  /**
    When the file reads to the end, every line's contribution sits in the result between
    what the lines before it and the lines after it contributed.
   */
  lemma LinesScanInOrder(fs: FileSystem, lines: seq<string>, j: nat)
    requires LinesScan(fs, lines).ok && j < |lines|
    ensures LineScan(fs, lines[j]).ok
    ensures LinesScan(fs, lines).added
      == LinesScan(fs, lines[..j]).added + LineScan(fs, lines[j]).added + LinesScan(fs, lines[j + 1..]).added
  {
    assert lines == lines[..j] + lines[j..];
    LinesScanAppend(fs, lines[..j], lines[j..]);
    assert lines[j..][0] == lines[j] && lines[j..][1..] == lines[j + 1..];
    AppendAssociative(LinesScan(fs, lines[..j]).added, LineScan(fs, lines[j]).added, LinesScan(fs, lines[j + 1..]).added);
  }

  /** The caller-supplied `List<string>` that `EnumGHLink` appends to. */
  class PathList {
    var items: seq<Path>

    constructor ()
      ensures items == []
    {
      items := [];
    }

    method Add(p: Path)
      modifies this
      ensures items == old(items) + [p]
    {
      items := items + [p];
    }
  }

  /** Appends the enumerated names whose extension is exactly ".gha". */
  method AppendGhaFiles(names: seq<Path>, files: PathList)
    modifies files
    ensures files.items == old(files.items) + GhaOnly(names)
  {
    var j := 0;
    while j < |names|
      invariant 0 <= j <= |names|
      invariant files.items == old(files.items) + GhaOnly(names[..j])
    {
      GhaOnlyStep(names, j);
      ghost var step := if HasGhaExtension(names[j]) then [names[j]] else [];
      AppendAssociative(old(files.items), GhaOnly(names[..j]), step);
      if HasGhaExtension(names[j]) {
        files.Add(names[j]);
      } else {
        assert files.items + [] == files.items;
      }
      j := j + 1;
    }
    assert names[..j] == names;
  }

  /** One iteration of the `EnumGHLink` loop; false stands for the exception that ends it. */
  method ScanLine(fs: FileSystem, fullLine: string, files: PathList) returns (ok: bool)
    modifies files
    ensures ok == LineScan(fs, fullLine).ok
    ensures files.items == old(files.items) + LineScan(fs, fullLine).added
  {
    ok := true;
    var line := Trim(fullLine);
    if !IsLinkEntry(line) {
      // blank or comment line
    } else if line in fs.files {
      files.Add(line);
    } else if line in fs.directories {
      var listing := ListingOf(fs.ghaTop, line);
      if listing.Failed? {
        ok := false;
      } else if listing.Found? {
        AppendGhaFiles(listing.names, files);
      }
    }
  }

  /**
    `EnumGHLink`: reads the link file line by line and appends to `files`; any exception
    makes it return false, and what was appended before stays in the caller's list.
   */
  method EnumGHLink(fs: FileSystem, filePath: Path, files: PathList) returns (ok: bool)
    modifies files
    ensures ok == LinkScan(fs, filePath).ok
    ensures files.items == old(files.items) + LinkScan(fs, filePath).added
  {
    if filePath !in fs.contents {
      return false;
    }
    var lines := fs.contents[filePath];
    ghost var start := files.items;
    ghost var acc: seq<Path> := [];
    var i := 0;
    while i < |lines|
      invariant 0 <= i <= |lines|
      invariant files.items == start + acc
      invariant LinesScan(fs, lines) == Then(Scan(true, acc), LinesScan(fs, lines[i..]))
    {
      LinesScanStep(fs, lines, i, acc);
      ghost var before := files.items;
      var lineOk := ScanLine(fs, lines[i], files);
      AppendAssociative(start, acc, LineScan(fs, lines[i]).added);
      acc := acc + LineScan(fs, lines[i]).added;
      if !lineOk {
        return false;
      }
      i := i + 1;
    }
    assert lines[i..] == [] && acc + [] == acc;
    ok := true;
  }

  /** Every name lies under `folder` (so `Substring(folder.FullName.Length)` never throws). */
  ghost predicate AllUnder(names: seq<Path>, folder: Path)
  {
    forall i :: 0 <= i < |names| ==> StartsWith(names[i], folder)
  }

  /** A folder's listing holds only names under the folder. */
  ghost predicate ListedUnder(listing: Listing, folder: Path)
  {
    listing.Found? ==> AllUnder(listing.names, folder)
  }

  lemma {:induction false} GhaOnlyUnder(names: seq<Path>, folder: Path)
    requires AllUnder(names, folder)
    ensures AllUnder(GhaOnly(names), folder)
  {
    if names != [] {
      GhaOnlyUnder(names[1..], folder);
    }
  }

  ghost predicate WellFormed(fs: FileSystem, folders: seq<Path>)
  {
    forall f :: f in folders ==> ListedUnder(ListingOf(fs.ghaAll, f), f) && ListedUnder(ListingOf(fs.ghlinkTop, f), f)
  }

  /** The dictionary entries for files found under `folder`: keyed by the path relative to it. */
  function Keyed(folder: Path, names: seq<Path>): (r: seq<Entry>)
    requires AllUnder(names, folder)
    ensures |r| == |names|
    ensures forall i :: 0 <= i < |names| ==> r[i] == (names[i][|folder|..], names[i])
  {
    seq(|names|, i requires 0 <= i < |names| => (names[i][|folder|..], names[i]))
  }

  /** The entries one default folder contributes: its ".gha" files, then its ".ghlink" files; `None` when enumerating throws. */
  function FolderEntries(fs: FileSystem, folder: Path): Option<seq<Entry>>
    requires ListedUnder(ListingOf(fs.ghaAll, folder), folder) && ListedUnder(ListingOf(fs.ghlinkTop, folder), folder)
  {
    match ListingOf(fs.ghaAll, folder)
    case Failed => None
    case NotFound => Some([])
    case Found(names) =>
      GhaOnlyUnder(names, folder);
      var ghas := Keyed(folder, GhaOnly(names));
      match ListingOf(fs.ghlinkTop, folder)
      case Failed => None
      case NotFound => Some(ghas)
      case Found(links) => Some(ghas + Keyed(folder, links))
  }

  /** The dictionary after the remaining folders are merged into `m`, in order; `None` when one of them throws. */
  function MapFrom(fs: FileSystem, m: seq<Entry>, folders: seq<Path>): Option<seq<Entry>>
    requires WellFormed(fs, folders)
    decreases |folders|
  {
    if folders == [] then Some(m)
    else match FolderEntries(fs, folders[0])
      case None => None
      case Some(es) => MapFrom(fs, MergeAll(m, es), folders[1..])
  }

  /** Every entry the folders contribute, in enumeration order. */
  function AllEntries(fs: FileSystem, folders: seq<Path>): seq<Entry>
    requires WellFormed(fs, folders)
  {
    if folders == [] then []
    else match FolderEntries(fs, folders[0])
      case None => []
      case Some(es) => es + AllEntries(fs, folders[1..])
  }

  /**
    When no enumeration throws, the dictionary is the one-by-one merge of every entry of every
    folder, so a relative path met again in a later folder replaces the earlier entry.
   */
  lemma {:induction false} MapFromMergesAll(fs: FileSystem, m: seq<Entry>, folders: seq<Path>)
    requires WellFormed(fs, folders)
    requires MapFrom(fs, m, folders).Some?
    ensures MapFrom(fs, m, folders) == Some(MergeAll(m, AllEntries(fs, folders)))
    decreases |folders|
  {
    if folders != [] {
      var es := FolderEntries(fs, folders[0]).value;
      MapFromMergesAll(fs, MergeAll(m, es), folders[1..]);
      MergeAllAppend(m, es, AllEntries(fs, folders[1..]));
    }
  }

  /**
    The dictionary `GetAssembliesList` builds has each relative path once, holds for each the
    file found last, and ends with the entry upserted last: a path met again moves to the end.
   */
  lemma AssemblyMap(fs: FileSystem, folders: seq<Path>, x: Path)
    requires WellFormed(fs, folders) && MapFrom(fs, [], folders).Some?
    ensures DistinctKeys(MapFrom(fs, [], folders).value)
    ensures Lookup(MapFrom(fs, [], folders).value, x)
      == if HasKey(AllEntries(fs, folders), x) then Some(LastValue(AllEntries(fs, folders), x)) else None
    ensures AllEntries(fs, folders) != [] ==>
      var m := MapFrom(fs, [], folders).value;
      |m| > 0 && m[|m| - 1] == AllEntries(fs, folders)[|AllEntries(fs, folders)| - 1]
  {
    var all := AllEntries(fs, folders);
    MapFromMergesAll(fs, [], folders);
    MergeAllDistinct([], all);
    MergeAllLookup([], all, x);
    if all != [] {
      var init := all[..|all| - 1];
      MergeAllDistinct([], init);
      UpsertDistinct(MergeAll([], init), all[|all| - 1].0, all[|all| - 1].1);
    }
  }

  /** What one dictionary value turns into in the final list. */
  function ExpandOne(fs: FileSystem, entry: Path): seq<Path>
  {
    var extension := Lower(Extension(entry));
    if extension == ".gha" then [entry]
    else if extension == ".ghlink" then LinkScan(fs, entry).added
    else []
  }

  /** The dictionary values in order, each link file replaced by what it lists. */
  function Expand(fs: FileSystem, entries: seq<Path>): seq<Path>
  {
    if entries == [] then [] else ExpandOne(fs, entries[0]) + Expand(fs, entries[1..])
  }

  /** Expansion happens in place: each value's expansion sits where the value was. */
  lemma {:induction false} ExpandAppend(fs: FileSystem, a: seq<Path>, b: seq<Path>)
    ensures Expand(fs, a + b) == Expand(fs, a) + Expand(fs, b)
  {
    if a == [] {
      assert a + b == b;
    } else {
      var head := ExpandOne(fs, a[0]);
      assert (a + b)[0] == a[0] && (a + b)[1..] == a[1..] + b;
      assert Expand(fs, a + b) == head + Expand(fs, a[1..] + b);
      ExpandAppend(fs, a[1..], b);
      assert head + (Expand(fs, a[1..]) + Expand(fs, b)) == (head + Expand(fs, a[1..])) + Expand(fs, b);
    }
  }

  lemma ExpandStep(fs: FileSystem, entries: seq<Path>, e: nat)
    requires e < |entries|
    ensures Expand(fs, entries[..e + 1]) == Expand(fs, entries[..e]) + ExpandOne(fs, entries[e])
  {
    assert entries[..e + 1] == entries[..e] + [entries[e]];
    ExpandAppend(fs, entries[..e], [entries[e]]);
    assert Expand(fs, [entries[e]]) == ExpandOne(fs, entries[e]) + Expand(fs, []);
    assert ExpandOne(fs, entries[e]) + [] == ExpandOne(fs, entries[e]);
  }

  /** `GetAssembliesList`: `None` stands for the exception a failing enumeration throws. */
  function AssembliesList(fs: FileSystem, folders: seq<Path>): Option<seq<Path>>
    requires WellFormed(fs, folders)
  {
    match MapFrom(fs, [], folders)
    case None => None
    case Some(m) => Some(Expand(fs, Values(m)))
  }

  /** Upserts the keyed entry of `name` into `dict`, as the loops of `GetAssembliesList` do. */
  method UpsertEntry(dict: OrderedDictionary, key: Path, name: Path)
    requires dict.Valid()
    modifies dict
    ensures dict.Valid()
    ensures dict.entries == OrderedMap.Upsert(old(dict.entries), key, name)
  {
    if dict.Contains(key) {
      dict.Remove(key);
    } else {
      RemoveKeyAbsent(dict.entries, key);
    }
    dict.Add(key, name);
  }

  lemma KeyedGhaStep(folder: Path, names: seq<Path>, j: nat)
    requires AllUnder(names, folder) && j < |names|
    ensures AllUnder(GhaOnly(names[..j]), folder) && AllUnder(GhaOnly(names[..j + 1]), folder)
    ensures Keyed(folder, GhaOnly(names[..j + 1])) ==
      if HasGhaExtension(names[j]) then Keyed(folder, GhaOnly(names[..j])) + [(names[j][|folder|..], names[j])]
      else Keyed(folder, GhaOnly(names[..j]))
  {
    assert names[..j + 1] == names[..j] + [names[j]];
    GhaOnlyAppend(names[..j], [names[j]]);
    GhaOnlyUnder(names[..j], folder);
    GhaOnlyUnder(names[..j + 1], folder);
  }

  /** One iteration of the `*.gha` loop: a file whose extension is not exactly ".gha" is skipped. */
  method MergeGhaFile(dict: OrderedDictionary, folder: Path, name: Path)
    requires dict.Valid() && StartsWith(name, folder)
    modifies dict
    ensures dict.Valid()
    ensures dict.entries == if HasGhaExtension(name) then OrderedMap.Upsert(old(dict.entries), name[|folder|..], name) else old(dict.entries)
  {
    if HasGhaExtension(name) {
      UpsertEntry(dict, name[|folder|..], name);
    }
  }

  /** The `*.gha` loop of `GetAssembliesList` for one folder: upserts each real ".gha" file. */
  method MergeGhaFiles(dict: OrderedDictionary, folder: Path, names: seq<Path>)
    requires dict.Valid()
    requires AllUnder(names, folder)
    modifies dict
    ensures dict.Valid()
    ensures AllUnder(GhaOnly(names), folder)
    ensures dict.entries == MergeAll(old(dict.entries), Keyed(folder, GhaOnly(names)))
  {
    GhaOnlyUnder(names, folder);
    ghost var start := dict.entries;
    var j := 0;
    assert AllUnder(names[..j], folder);
    while j < |names|
      invariant 0 <= j <= |names|
      invariant dict.Valid()
      invariant AllUnder(names[..j], folder)
      invariant dict.entries == MergedGha(start, folder, names[..j])
    {
      MergedGhaStep(start, folder, names, j);
      MergeGhaFile(dict, folder, names[j]);
      j := j + 1;
    }
    assert names[..j] == names;
  }

  /** The dictionary after upserting the ".gha" files among `names`, keyed relative to `folder`. */
  ghost function MergedGha(start: seq<Entry>, folder: Path, names: seq<Path>): seq<Entry>
    requires AllUnder(names, folder)
  {
    GhaOnlyUnder(names, folder);
    MergeAll(start, Keyed(folder, GhaOnly(names)))
  }

  lemma MergedGhaStep(start: seq<Entry>, folder: Path, names: seq<Path>, j: nat)
    requires AllUnder(names, folder) && j < |names|
    ensures StartsWith(names[j], folder)
    ensures AllUnder(names[..j + 1], folder)
    ensures MergedGha(start, folder, names[..j + 1]) ==
      if HasGhaExtension(names[j]) then Upsert(MergedGha(start, folder, names[..j]), names[j][|folder|..], names[j])
      else MergedGha(start, folder, names[..j])
  {
    KeyedGhaStep(folder, names, j);
    MergeAllSnoc(start, Keyed(folder, GhaOnly(names[..j])), names[j][|folder|..], names[j]);
  }

  /** The `*.ghlink` loop of `GetAssembliesList` for one folder: upserts each link file. */
  method MergeLinkFiles(dict: OrderedDictionary, folder: Path, names: seq<Path>)
    requires dict.Valid()
    requires AllUnder(names, folder)
    modifies dict
    ensures dict.Valid()
    ensures dict.entries == MergeAll(old(dict.entries), Keyed(folder, names))
  {
    var k := 0;
    while k < |names|
      invariant 0 <= k <= |names|
      invariant dict.Valid()
      invariant dict.entries == MergeAll(old(dict.entries), Keyed(folder, names[..k]))
    {
      ghost var done := Keyed(folder, names[..k]);
      ghost var next := done + [(names[k][|folder|..], names[k])];
      assert Keyed(folder, names[..k + 1]) == next;
      assert next[..|done|] == done;
      UpsertEntry(dict, names[k][|folder|..], names[k]);
      k := k + 1;
    }
    assert names[..k] == names;
  }

  /** One iteration of the folder loop of `GetAssembliesList`; false stands for a propagated exception. */
  method MergeFolder(fs: FileSystem, dict: OrderedDictionary, folder: Path) returns (ok: bool)
    requires dict.Valid()
    requires ListedUnder(ListingOf(fs.ghaAll, folder), folder) && ListedUnder(ListingOf(fs.ghlinkTop, folder), folder)
    modifies dict
    ensures dict.Valid()
    ensures ok == FolderEntries(fs, folder).Some?
    ensures ok ==> dict.entries == MergeAll(old(dict.entries), FolderEntries(fs, folder).value)
  {
    var ghas := ListingOf(fs.ghaAll, folder);
    if ghas.Failed? {
      return false;
    }
    if ghas.NotFound? {
      return true;
    }
    MergeGhaFiles(dict, folder, ghas.names);
    var links := ListingOf(fs.ghlinkTop, folder);
    if links.Failed? {
      return false;
    }
    if links.Found? {
      ghost var mid := dict.entries;
      MergeLinkFiles(dict, folder, links.names);
      MergeAllAppend(old(dict.entries), Keyed(folder, GhaOnly(ghas.names)), Keyed(folder, links.names));
    }
    ok := true;
  }

  /** One iteration of the final loop: a ".gha" file is listed, a ".ghlink" file expanded, anything else dropped. */
  method ExpandEntry(fs: FileSystem, entry: Path, assemblies: PathList)
    modifies assemblies
    ensures assemblies.items == old(assemblies.items) + ExpandOne(fs, entry)
  {
    var extension := Lower(Extension(entry));
    if extension == ".gha" {
      assemblies.Add(entry);
    } else if extension == ".ghlink" {
      var _ := EnumGHLink(fs, entry, assemblies);
    } else {
      assert ExpandOne(fs, entry) == [];
    }
  }

  /** The final loop of `GetAssembliesList`: the values in order, `.ghlink` files expanded in place. */
  method ExpandValues(fs: FileSystem, values: seq<Path>) returns (list: seq<Path>)
    ensures list == Expand(fs, values)
  {
    var assemblies := new PathList();
    var e := 0;
    while e < |values|
      invariant 0 <= e <= |values|
      invariant assemblies.items == Expand(fs, values[..e])
    {
      ExpandStep(fs, values, e);
      ExpandEntry(fs, values[e], assemblies);
      e := e + 1;
    }
    assert values[..e] == values;
    list := assemblies.items;
  }

  /**
    `GetAssembliesList`: merges the default folders into an ordered dictionary keyed by
    relative path (a later folder wins and moves the key to the end), then lists the
    dictionary's values, expanding each `.ghlink` file in place.
   */
  method GetAssembliesList(fs: FileSystem, folders: seq<Path>) returns (result: Option<seq<Path>>)
    requires WellFormed(fs, folders)
    ensures result == AssembliesList(fs, folders)
  {
    var dict := new OrderedDictionary();
    var f := 0;
    while f < |folders|
      invariant 0 <= f <= |folders|
      invariant dict.Valid()
      invariant MapFrom(fs, [], folders) == MapFrom(fs, dict.entries, folders[f..])
    {
      assert folders[f..][0] == folders[f] && folders[f..][1..] == folders[f + 1..];
      var ok := MergeFolder(fs, dict, folders[f]);
      if !ok {
        return None;
      }
      f := f + 1;
    }
    var list := ExpandValues(fs, Values(dict.entries));
    result := Some(list);
  }
}
