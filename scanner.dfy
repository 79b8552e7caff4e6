/**
 * The main process's importer: the recursive folder walk
 * (`scanDirectory`), the audio-extension test, and the `import-content`
 * handler that either scans the chosen folder or stats each chosen file.
 *
 * The filesystem is an abstract tree: an entry is a directory with its
 * listing, a file with the size and modification time its stat reports,
 * an entry whose stat throws, or a directory whose listing throws. Paths
 * are built with `Paths.Join`.
 */
module Scanner {
  import opened Wrappers
  import opened Chars
  import opened Seqs
  import opened Paths

  datatype Entry =
    | Dir(name: string, children: seq<Entry>)
    | File(name: string, size: nat, mtime: int)
    | StatFails(name: string)
    | ReaddirFails(name: string)

  /** One audio file found: its base name, full path, byte size and modification time (an opaque number). */
  datatype FileDescriptor = FileDescriptor(name: string, path: string, size: nat, date: int)

  // ------------------------------------------------------------------
  // The extension test: /\.(wav|mp3|aif|flac|ogg|m4a)$/i
  // ------------------------------------------------------------------

  const AudioExtensions: seq<string> := ["wav", "mp3", "aif", "flac", "ogg", "m4a"]

  /** The anchored pattern holds exactly when the lower-cased name ends in "." and one of the extensions, so a name it accepts has a dot and at least four characters. */
  predicate IsAudioName(name: string): (b: bool)
    ensures b ==> 4 <= |name| && '.' in name
  {
    AudioSuffixHasDot(name);
    exists x :: x in AudioExtensions && EndsWith(Lower(name), ['.'] + x)
  }

  lemma AudioSuffixHasDot(name: string)
    ensures (exists x :: x in AudioExtensions && EndsWith(Lower(name), ['.'] + x)) ==> '.' in name
  {
    if exists x :: x in AudioExtensions && EndsWith(Lower(name), ['.'] + x) {
      var x :| x in AudioExtensions && EndsWith(Lower(name), ['.'] + x);
      var k := |name| - |x| - 1;
      assert Lower(name)[k] == Lower(name)[k..][0] == '.';
      assert name[k] == '.';
    }
  }

  lemma ExtensionsAreDotFree()
    ensures forall x :: x in AudioExtensions ==> '.' !in x
  {
  }

  /** The text after the last "." of a name, if it has one. */
  function Extension(name: string): (r: Option<string>)
    ensures r.None? ==> '.' !in name
    ensures r.Some? ==> && |r.value| < |name|
                        && r.value == name[|name| - |r.value|..]
                        && name[|name| - |r.value| - 1] == '.'
                        && '.' !in r.value
  {
    if name == [] then None
    else if name[|name| - 1] == '.' then Some([])
    else
      match Extension(name[..|name| - 1])
      case None =>
        assert name == name[..|name| - 1] + [name[|name| - 1]];
        None
      case Some(x) =>
        assert '.' !in x + [name[|name| - 1]];
        Some(x + [name[|name| - 1]])
  }

  lemma LowerSuffix(name: string, k: nat)
    requires k <= |name|
    ensures Lower(name)[|name| - k..] == Lower(name[|name| - k..])
  {
    LowerSlice(name, |name| - k, |name|);
    assert name[|name| - k..|name|] == name[|name| - k..];
  }

  /**
   * The test accepts a name exactly when it has an extension, the text
   * after its last ".", that is one of the six in any case: "x.aiff" and
   * "x.txt" are refused, "Kick.WAV" is accepted.
   */
  lemma AudioNameIffExtension(name: string)
    ensures IsAudioName(name) <==> Extension(name).Some? && Lower(Extension(name).value) in AudioExtensions
  {
    if IsAudioName(name) {
      AudioNameHasExtension(name);
    }
    if Extension(name).Some? && Lower(Extension(name).value) in AudioExtensions {
      ExtensionGivesAudioName(name);
    }
  }

  lemma ExtensionGivesAudioName(name: string)
    requires Extension(name).Some? && Lower(Extension(name).value) in AudioExtensions
    ensures IsAudioName(name)
  {
    ExtensionIsDottedSuffix(name);
  }

  lemma AudioNameHasExtension(name: string)
    requires IsAudioName(name)
    ensures Extension(name).Some? && Lower(Extension(name).value) in AudioExtensions
  {
    var x :| x in AudioExtensions && EndsWith(Lower(name), ['.'] + x);
    ExtensionsAreDotFree();
    DottedSuffix(name, x);
  }

  lemma ExtensionIsDottedSuffix(name: string)
    requires Extension(name).Some?
    ensures EndsWith(Lower(name), ['.'] + Lower(Extension(name).value))
  {
    var x := Extension(name).value;
    var tail := name[|name| - |x| - 1..];
    assert tail == ['.'] + x by {
      assert tail[0] == name[|name| - |x| - 1];
      assert tail[1..] == name[|name| - |x|..];
    }
    SuffixOfLower(name, tail);
    LowerConcat(['.'], x);
    assert Lower(['.']) == ['.'];
  }

  /** Lower-casing keeps suffixes. */
  lemma SuffixOfLower(name: string, tail: string)
    requires |tail| <= |name| && tail == name[|name| - |tail|..]
    ensures EndsWith(Lower(name), Lower(tail))
  {
    LowerSuffix(name, |tail|);
  }

  /** A name whose lower-cased form ends in "." and a dot-free text has, as extension, a text that lower-cases to it. */
  lemma DottedSuffix(name: string, x: string)
    requires '.' !in x
    requires EndsWith(Lower(name), ['.'] + x)
    ensures Extension(name).Some? && Lower(Extension(name).value) == x
  {
    var k := |x| + 1;
    LowerSuffix(name, k);
    var tail := name[|name| - k..];
    DotThenText(tail, x);
    var y := tail[1..];
    assert name[|name| - |y|..] == y;
    assert name[|name| - |y| - 1] == tail[0];
    ExtensionOfSuffix(name, y);
  }

  /** Text whose lower-cased form is "." and a dot-free text starts with "." and has no other. */
  lemma DotThenText(tail: string, x: string)
    requires '.' !in x
    requires Lower(tail) == ['.'] + x
    ensures tail != [] && tail[0] == '.'
    ensures Lower(tail[1..]) == x && '.' !in tail[1..]
  {
    assert ToLower(tail[0]) == '.';
    var y := tail[1..];
    LowerSlice(tail, 1, |tail|);
    assert tail[1..|tail|] == y;
    assert Lower(y) == x;
    forall i | 0 <= i < |y|
      ensures y[i] != '.'
    {
      assert Lower(y)[i] == ToLower(y[i]);
      assert x[i] in x;
    }
  }

  /** A name that ends in "." and a dot-free text has that text as its extension. */
  lemma {:induction false} ExtensionOfSuffix(name: string, x: string)
    requires |x| < |name| && name[|name| - |x|..] == x && name[|name| - |x| - 1] == '.' && '.' !in x
    ensures Extension(name) == Some(x)
    decreases |x|
  {
    if x != [] {
      var init := name[..|name| - 1];
      assert x[|x| - 1] in x;
      assert init[|init| - (|x| - 1)..] == x[..|x| - 1] by {
        var a, b := init[|init| - (|x| - 1)..], x[..|x| - 1];
        assert |a| == |b|;
        forall k | 0 <= k < |a|
          ensures a[k] == b[k]
        {
          assert a[k] == name[|name| - |x| + k] == x[k];
        }
      }
      assert '.' !in x[..|x| - 1] by {
        forall i | 0 <= i < |x| - 1 ensures x[i] != '.' { assert x[i] in x; }
      }
      ExtensionOfSuffix(init, x[..|x| - 1]);
      assert x[..|x| - 1] + [name[|name| - 1]] == x;
    }
  }

  // ------------------------------------------------------------------
  // The walk
  // ------------------------------------------------------------------

  /** What `scanDirectory(dir)` returns when the node at `dir` is `node`; a node that is not a readable directory yields nothing. */
  function Scan(dir: string, node: Entry): (r: seq<FileDescriptor>)
    ensures forall d :: d in r ==> IsAudioName(d.name)
    decreases node, 1
  {
    match node
    case Dir(_, children) => ScanEntries(dir, children)
    case _ => []
  }

  /** The `forEach` over a listing: each entry's results, in listing order. */
  function ScanEntries(dir: string, entries: seq<Entry>): (r: seq<FileDescriptor>)
    ensures forall d :: d in r ==> IsAudioName(d.name)
    decreases entries, 0
  {
    if entries == [] then [] else Visit(dir, entries[0]) + ScanEntries(dir, entries[1..])
  }

  /** One entry of the listing of `dir`: a directory is walked, a supported file is described, anything else is dropped. */
  function Visit(dir: string, e: Entry): (r: seq<FileDescriptor>)
    ensures forall d :: d in r ==> IsAudioName(d.name)
    ensures !e.Dir? ==> |r| <= 1
    decreases e, 2
  {
    var full := Join(dir, e.name);
    match e
    case Dir(_, _) => Scan(full, e)
    case ReaddirFails(_) => Scan(full, e)
    case File(n, size, mtime) => if IsAudioName(n) then [FileDescriptor(n, full, size, mtime)] else []
    case StatFails(_) => []
  }

  lemma {:induction false} ScanEntriesConcat(dir: string, a: seq<Entry>, b: seq<Entry>)
    ensures ScanEntries(dir, a + b) == ScanEntries(dir, a) + ScanEntries(dir, b)
    decreases |a|
  {
    if a == [] {
      assert a + b == b;
    } else {
      assert (a + b)[0] == a[0];
      assert (a + b)[1..] == a[1..] + b;
      ScanEntriesConcat(dir, a[1..], b);
    }
  }

  /** `scanDirectory`: the listing is walked left to right, pushing descriptors and splicing in each subdirectory's results. */
  method ScanDirectory(dir: string, node: Entry) returns (results: seq<FileDescriptor>)
    ensures results == Scan(dir, node)
    decreases node
  {
    results := [];
    if !node.Dir? {
      return;
    }
    var list := node.children;
    var i := 0;
    while i < |list|
      invariant 0 <= i <= |list|
      invariant results == ScanEntries(dir, list[..i])
    {
      var entry := list[i];
      var fullPath := Join(dir, entry.name);
      match entry {
        case Dir(_, _) =>
          var sub := ScanDirectory(fullPath, entry);
          results := results + sub;
        case ReaddirFails(_) =>
          var sub := ScanDirectory(fullPath, entry);
          results := results + sub;
        case File(n, size, mtime) =>
          if IsAudioName(n) {
            results := results + [FileDescriptor(n, fullPath, size, mtime)];
          }
        case StatFails(_) =>
      }
      ScanEntriesConcat(dir, list[..i], [entry]);
      assert list[..i + 1] == list[..i] + [entry];
      i := i + 1;
    }
    assert list[..i] == list;
  }

  // ------------------------------------------------------------------
  // What the walk returns
  // ------------------------------------------------------------------

  /**
   * The reference view of a walk: `d` describes a supported file listed
   * directly in the directory `node` at `dir`, with its path joined from
   * `dir` and its size and time from its stat, or one found the same way
   * inside a listed subdirectory.
   */
  ghost predicate Reaches(dir: string, node: Entry, d: FileDescriptor)
    decreases node, 1
  {
    node.Dir? && exists k :: 0 <= k < |node.children| && ReachesVia(dir, node.children[k], d)
  }

  ghost predicate ReachesVia(dir: string, e: Entry, d: FileDescriptor)
    decreases e, 2
  {
    match e
    case File(n, size, mtime) => IsAudioName(n) && d == FileDescriptor(n, Join(dir, n), size, mtime)
    case Dir(n, _) => Reaches(Join(dir, n), e, d)
    case _ => false
  }

  /** A descriptor is returned exactly when it describes a reachable supported file, so directories are never returned. */
  lemma {:induction false} ScanIffReaches(dir: string, node: Entry, d: FileDescriptor)
    ensures d in Scan(dir, node) <==> Reaches(dir, node, d)
    decreases node, 1
  {
    if node.Dir? {
      ScanEntriesIffReaches(dir, node.children, d);
    }
  }

  lemma {:induction false} ScanEntriesIffReaches(dir: string, entries: seq<Entry>, d: FileDescriptor)
    ensures d in ScanEntries(dir, entries) <==> exists k :: 0 <= k < |entries| && ReachesVia(dir, entries[k], d)
    decreases entries, 0
  {
    if entries != [] {
      var e := entries[0];
      var rest := entries[1..];
      ScanEntriesIffReaches(dir, rest, d);
      assert d in Visit(dir, e) <==> ReachesVia(dir, e, d) by {
        if e.Dir? {
          ScanIffReaches(Join(dir, e.name), e, d);
        }
      }
      if exists k :: 0 <= k < |entries| && ReachesVia(dir, entries[k], d) {
        var k :| 0 <= k < |entries| && ReachesVia(dir, entries[k], d);
        if k > 0 {
          assert rest[k - 1] == entries[k];
        }
      }
      if exists k :: 0 <= k < |rest| && ReachesVia(dir, rest[k], d) {
        var k :| 0 <= k < |rest| && ReachesVia(dir, rest[k], d);
        assert entries[k + 1] == rest[k];
      }
    }
  }

  /** Every name in the tree is a non-empty name without separators, as a directory listing gives them. */
  ghost predicate WellNamed(e: Entry)
    decreases e
  {
    match e
    case Dir(n, children) => n != [] && Separator !in n && forall k :: 0 <= k < |children| ==> WellNamed(children[k])
    case File(n, _, _) => n != [] && Separator !in n
    case StatFails(n) => n != [] && Separator !in n
    case ReaddirFails(n) => n != [] && Separator !in n
  }

  /** In a well-named tree, each descriptor's name is the base name of its path. */
  lemma {:induction false} ScanNamesArePathBasenames(dir: string, node: Entry, d: FileDescriptor)
    requires WellNamed(node)
    requires d in Scan(dir, node)
    ensures Basename(d.path) == d.name
    decreases node, 1
  {
    ScanIffReaches(dir, node, d);
    var k :| 0 <= k < |node.children| && ReachesVia(dir, node.children[k], d);
    var e := node.children[k];
    match e
    case File(n, _, _) =>
      BasenameOfJoin(dir, n);
    case Dir(n, _) =>
      ScanIffReaches(Join(dir, n), e, d);
      ScanNamesArePathBasenames(Join(dir, n), e, d);
  }

  /**
   * Each subdirectory's results are spliced in at its position in the
   * listing; the directory itself contributes no descriptor, whatever
   * its name.
   */
  lemma SubdirectorySplicedInPlace(dir: string, name: string, before: seq<Entry>, sub: Entry, after: seq<Entry>)
    requires sub.Dir?
    ensures Scan(dir, Dir(name, before + [sub] + after))
         == ScanEntries(dir, before) + Scan(Join(dir, sub.name), sub) + ScanEntries(dir, after)
  {
    ScanEntriesConcat(dir, before + [sub], after);
    ScanEntriesConcat(dir, before, [sub]);
  }

  /** An entry whose stat throws is dropped alone: its siblings are returned as if it were absent. */
  lemma StatFailureDropsOnlyThatEntry(dir: string, name: string, before: seq<Entry>, bad: string, after: seq<Entry>)
    ensures Scan(dir, Dir(name, before + [StatFails(bad)] + after)) == Scan(dir, Dir(name, before + after))
  {
    ScanEntriesConcat(dir, before + [StatFails(bad)], after);
    ScanEntriesConcat(dir, before, [StatFails(bad)]);
    ScanEntriesConcat(dir, before, after);
  }

  /** A subdirectory whose listing throws contributes nothing, and its siblings are still returned. */
  lemma ReaddirFailureYieldsNothing(dir: string, name: string, before: seq<Entry>, bad: string, after: seq<Entry>)
    ensures Scan(dir, Dir(name, before + [ReaddirFails(bad)] + after)) == Scan(dir, Dir(name, before + after))
  {
    ScanEntriesConcat(dir, before + [ReaddirFails(bad)], after);
    ScanEntriesConcat(dir, before, [ReaddirFails(bad)]);
    ScanEntriesConcat(dir, before, after);
    assert Scan(Join(dir, bad), ReaddirFails(bad)) == [];
    assert ScanEntries(dir, [ReaddirFails(bad)]) == [];
  }

  /** The number of supported files in the tree below a directory node, counting each listed file once. */
  ghost function AudioCount(node: Entry): nat
    decreases node, 1
  {
    match node
    case Dir(_, children) => AudioCountEntries(children)
    case _ => 0
  }

  ghost function AudioCountEntries(entries: seq<Entry>): nat
    decreases entries, 0
  {
    if entries == [] then 0
    else
      var e := entries[0];
      var here := match e
        case File(n, _, _) => if IsAudioName(n) then 1 else 0
        case Dir(_, _) => AudioCount(e)
        case _ => 0;
      here + AudioCountEntries(entries[1..])
  }

  /** A tree with N supported and M unsupported files yields exactly N descriptors. */
  lemma {:induction false} ScanCount(dir: string, node: Entry)
    ensures |Scan(dir, node)| == AudioCount(node)
    decreases node, 1
  {
    if node.Dir? {
      ScanEntriesCount(dir, node.children);
    }
  }

  lemma {:induction false} ScanEntriesCount(dir: string, entries: seq<Entry>)
    ensures |ScanEntries(dir, entries)| == AudioCountEntries(entries)
    decreases entries, 0
  {
    if entries != [] {
      var e := entries[0];
      if e.Dir? {
        ScanCount(Join(dir, e.name), e);
      } else if e.ReaddirFails? {
        assert Scan(Join(dir, e.name), e) == [];
      }
      ScanEntriesCount(dir, entries[1..]);
    }
  }

  // ------------------------------------------------------------------
  // The `import-content` handler
  // ------------------------------------------------------------------

  /** What a successful `statSync` reports. */
  datatype Stat = Stat(size: nat, mtime: int)

  /**
   * The filesystem as the handler sees it: the tree below any path, for
   * `scanDirectory`, and the outcome of `statSync` on any path (None when
   * it throws).
   */
  datatype FileSystem = FileSystem(node: string -> Entry, stat: string -> Option<Stat>)

  datatype ImportResult = ImportResult(folderName: string, files: seq<FileDescriptor>)

  /** The library name of an explicit file selection. */
  const SelectionName: string := "Selecci\U{00F3}n Individual"

  /** What `statSync` makes of one selected path: null when it throws. */
  function DescribePath(p: string, stat: string -> Option<Stat>): (r: Option<FileDescriptor>)
    ensures r.None? <==> stat(p).None?
    ensures r.Some? ==> && r.value.path == p && r.value.name == Basename(p)
                        && stat(p) == Some(Stat(r.value.size, r.value.date))
  {
    match stat(p)
    case None => None
    case Some(st) => Some(FileDescriptor(Basename(p), p, st.size, st.mtime))
  }

  /** `filePaths.map(...)`: each path stat-ed, with null where the stat throws. */
  function StatEach(paths: seq<string>, stat: string -> Option<Stat>): (r: seq<Option<FileDescriptor>>)
    ensures |r| == |paths|
    ensures forall i :: 0 <= i < |r| && r[i].Some? ==> r[i].value.path == paths[i]
  {
    if paths == [] then [] else [DescribePath(paths[0], stat)] + StatEach(paths[1..], stat)
  }

  /** `.filter(f => f !== null)`. */
  function DropNulls(xs: seq<Option<FileDescriptor>>): (r: seq<FileDescriptor>)
    ensures |r| <= |xs|
    ensures forall d :: d in r ==> Some(d) in xs
  {
    if xs == [] then []
    else if xs[0].None? then DropNulls(xs[1..])
    else [xs[0].value] + DropNulls(xs[1..])
  }

  /** Files mode: the selected paths that stat successfully, in selection order, with no extension filter. */
  function SelectedFiles(paths: seq<string>, stat: string -> Option<Stat>): (r: seq<FileDescriptor>)
    ensures |r| <= |paths|
    ensures forall d :: d in r ==> d.path in paths
  {
    DropNulls(StatEach(paths, stat))
  }

  function PathsOf(ds: seq<FileDescriptor>): (r: seq<string>)
    ensures |r| == |ds| && forall i :: 0 <= i < |ds| ==> r[i] == ds[i].path
  {
    seq(|ds|, i requires 0 <= i < |ds| => ds[i].path)
  }

  lemma PathsOfConcat(a: seq<FileDescriptor>, b: seq<FileDescriptor>)
    ensures PathsOf(a + b) == PathsOf(a) + PathsOf(b)
  {
    assert |PathsOf(a + b)| == |PathsOf(a) + PathsOf(b)|;
    forall k | 0 <= k < |a + b|
      ensures PathsOf(a + b)[k] == (PathsOf(a) + PathsOf(b))[k]
    {
      if k < |a| {
        assert (a + b)[k] == a[k];
      } else {
        assert (a + b)[k] == b[k - |a|];
      }
    }
  }

  /** The number of selected paths whose stat throws. */
  ghost function StatFailures(paths: seq<string>, stat: string -> Option<Stat>): nat
  {
    if paths == [] then 0
    else (if stat(paths[0]).None? then 1 else 0) + StatFailures(paths[1..], stat)
  }

  /**
   * Files mode keeps exactly the selected paths whose stat succeeds, in
   * order, each described by its base name and its own stat; so P paths
   * with one failure give P - 1 descriptors.
   */
  lemma {:induction false} SelectedFilesSpec(paths: seq<string>, stat: string -> Option<Stat>)
    ensures |SelectedFiles(paths, stat)| == |paths| - StatFailures(paths, stat)
    ensures IsSubsequence(PathsOf(SelectedFiles(paths, stat)), paths)
    ensures forall d :: d in SelectedFiles(paths, stat) ==>
      d.name == Basename(d.path) && stat(d.path) == Some(Stat(d.size, d.date))
    ensures forall p :: p in paths && stat(p).Some? ==> p in PathsOf(SelectedFiles(paths, stat))
  {
    SelectedFilesCount(paths, stat);
    SelectedFilesInOrder(paths, stat);
    SelectedFilesDescribed(paths, stat);
    SelectedFilesComplete(paths, stat);
  }

  function AsList(o: Option<FileDescriptor>): seq<FileDescriptor>
  {
    if o.None? then [] else [o.value]
  }

  /** One step of the map and filter: the first path's descriptor, if its stat succeeds, then the rest. */
  lemma SelectedFilesStep(paths: seq<string>, stat: string -> Option<Stat>)
    requires paths != []
    ensures SelectedFiles(paths, stat) == AsList(DescribePath(paths[0], stat)) + SelectedFiles(paths[1..], stat)
    ensures PathsOf(SelectedFiles(paths, stat))
         == (if stat(paths[0]).None? then [] else [paths[0]]) + PathsOf(SelectedFiles(paths[1..], stat))
  {
    var head := AsList(DescribePath(paths[0], stat));
    PathsOfConcat(head, SelectedFiles(paths[1..], stat));
    assert PathsOf(head) == if stat(paths[0]).None? then [] else [paths[0]];
  }

  lemma {:induction false} SelectedFilesCount(paths: seq<string>, stat: string -> Option<Stat>)
    ensures |SelectedFiles(paths, stat)| == |paths| - StatFailures(paths, stat)
    decreases |paths|
  {
    if paths != [] {
      SelectedFilesStep(paths, stat);
      SelectedFilesCount(paths[1..], stat);
    }
  }

  lemma {:induction false} SelectedFilesInOrder(paths: seq<string>, stat: string -> Option<Stat>)
    ensures IsSubsequence(PathsOf(SelectedFiles(paths, stat)), paths)
    decreases |paths|
  {
    if paths != [] {
      var tail := PathsOf(SelectedFiles(paths[1..], stat));
      SelectedFilesStep(paths, stat);
      SelectedFilesInOrder(paths[1..], stat);
      if stat(paths[0]).None? {
        assert [] + tail == tail;
        SubsequenceSkip(tail, paths);
      } else {
        SubsequenceKeep(tail, paths);
      }
    }
  }

  lemma {:induction false} SelectedFilesDescribed(paths: seq<string>, stat: string -> Option<Stat>)
    ensures forall d :: d in SelectedFiles(paths, stat) ==>
      d.name == Basename(d.path) && stat(d.path) == Some(Stat(d.size, d.date))
    decreases |paths|
  {
    if paths != [] {
      SelectedFilesStep(paths, stat);
      SelectedFilesDescribed(paths[1..], stat);
    }
  }

  lemma {:induction false} SelectedFilesComplete(paths: seq<string>, stat: string -> Option<Stat>)
    ensures forall p :: p in paths && stat(p).Some? ==> p in PathsOf(SelectedFiles(paths, stat))
    decreases |paths|
  {
    if paths != [] {
      var head: seq<string> := if stat(paths[0]).None? then [] else [paths[0]];
      var tail := PathsOf(SelectedFiles(paths[1..], stat));
      SelectedFilesStep(paths, stat);
      SelectedFilesComplete(paths[1..], stat);
      forall q | q in paths && stat(q).Some?
        ensures q in head + tail
      {
        if q == paths[0] {
          assert head == [q];
        } else {
          assert q in paths[1..];
        }
      }
    }
  }

  /**
   * The `import-content` handler after the dialog returned `filePaths`:
   * null for an empty selection; in folder mode only the first path is
   * scanned and named by its base name; any other mode stats each path.
   */
  method ImportContent(kind: string, filePaths: seq<string>, fs: FileSystem) returns (r: Option<ImportResult>)
    ensures r.None? <==> filePaths == []
    ensures r.Some? && kind == "folder" ==>
      r.value == ImportResult(Basename(filePaths[0]), Scan(filePaths[0], fs.node(filePaths[0])))
    ensures r.Some? && kind != "folder" ==>
      r.value == ImportResult(SelectionName, SelectedFiles(filePaths, fs.stat))
  {
    var isFolder := kind == "folder";
    if |filePaths| > 0 {
      var files: seq<FileDescriptor> := [];
      var folderName := "Imported";
      if isFolder {
        var folderPath := filePaths[0];
        folderName := Basename(folderPath);
        files := ScanDirectory(folderPath, fs.node(folderPath));
      } else {
        folderName := SelectionName;
        files := SelectedFiles(filePaths, fs.stat);
      }
      return Some(ImportResult(folderName, files));
    }
    return None;
  }
}
