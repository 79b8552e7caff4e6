/**
 * The renderer's state (`SampleManagerApp`): the sample list, the library
 * names, the current view ("pool" or a library name), the id of the
 * sample playing, the search text and the source of the audio element.
 * Importing appends one record per file found and switches to the batch's
 * library; the view and the search text select which samples are listed;
 * the play button either pauses the sample playing or points the audio
 * element at the `file:///` URI of another one.
 */
module Browser {
  import opened Wrappers
  import opened Chars
  import opened Seqs
  import opened Tagger
  import opened Uri
  import opened Scanner

  /** A file descriptor with its id, library and tags. */
  datatype Sample = Sample(
    name: string, path: string, size: nat, date: int,
    id: string, library: string, category: string, bpm: Option<nat>, key: Option<string>)

  /** What the import dialog asked for: a library name and a genre, either possibly blank. */
  datatype ImportConfig = ImportConfig(name: string, genre: string)

  /** The view that lists every library. */
  const PoolView: string := "pool"

  // ------------------------------------------------------------------
  // Building the records of an import
  // ------------------------------------------------------------------

  /**
   * The library of a batch: the typed name, untrimmed, exactly when it has
   * a non-whitespace character, else the folder's name.
   */
  function LibraryName(config: ImportConfig, folderName: string): (r: string)
    ensures (exists k :: 0 <= k < |config.name| && !IsSpace(config.name[k])) ==> r == config.name
    ensures (forall k :: 0 <= k < |config.name| ==> IsSpace(config.name[k])) ==> r == folderName
  {
    TrimEmptyIff(config.name);
    if Trim(config.name) != [] then config.name else folderName
  }

  /**
   * The category of a record: the trimmed genre unless it is empty, else
   * the detected label; either way a non-empty text without whitespace at
   * either end.
   */
  function CategoryLabel(genre: string, name: string): (r: string)
    ensures r != [] && !IsSpace(r[0]) && !IsSpace(r[|r| - 1])
  {
    if Trim(genre) != [] then Trim(genre) else Label(CategoryOf(name))
  }

  /** `{...f, id: f.path, library, category, bpm, key}`. */
  function ToSample(f: FileDescriptor, library: string, genre: string): (r: Sample)
    ensures Descriptor(r) == f && r.id == f.path && r.library == library
    ensures r.bpm.Some? ==> r.bpm.value <= 999
  {
    var meta := DetectMetadata(f.name);
    Sample(f.name, f.path, f.size, f.date, f.path, library, CategoryLabel(genre, f.name), meta.bpm, meta.key)
  }

  /** `result.files.map(...)`. */
  function Processed(files: seq<FileDescriptor>, library: string, genre: string): (r: seq<Sample>)
    ensures |r| == |files|
  {
    seq(|files|, i requires 0 <= i < |files| => ToSample(files[i], library, genre))
  }

  /** The descriptor a sample was built from. */
  function Descriptor(s: Sample): FileDescriptor
  {
    FileDescriptor(s.name, s.path, s.size, s.date)
  }

  function Descriptors(ss: seq<Sample>): (r: seq<FileDescriptor>)
    ensures |r| == |ss| && forall i :: 0 <= i < |ss| ==> r[i] == Descriptor(ss[i])
  {
    seq(|ss|, i requires 0 <= i < |ss| => Descriptor(ss[i]))
  }

  /**
   * The batch holds one record per file, in order: taking the descriptor
   * back out of each record gives the files again. Every record is keyed
   * by its path, belongs to the batch's library, and carries the tags of
   * its name, with the genre in place of the detected category when it is
   * not blank.
   */
  lemma ProcessedRecords(files: seq<FileDescriptor>, library: string, genre: string)
    ensures Descriptors(Processed(files, library, genre)) == files
    ensures forall s :: s in Processed(files, library, genre) ==> s.id == s.path && s.library == library
    ensures forall s :: s in Processed(files, library, genre) ==>
      && s.bpm == Bpm(s.name) && s.key == Key(s.name)
      && (Trim(genre) != [] ==> s.category == Trim(genre))
      && (Trim(genre) == [] ==> s.category == Label(CategoryOf(s.name)))
  {
    var r := Processed(files, library, genre);
    assert forall i :: 0 <= i < |files| ==> Descriptor(r[i]) == files[i];
  }

  // ------------------------------------------------------------------
  // The list shown: view and search
  // ------------------------------------------------------------------

  /**
   * The test of `filtered`: in the current library (or any, in the pool
   * view) and named like the search text; an empty search hides nothing.
   */
  predicate Shown(s: Sample, view: string, query: string): (b: bool)
    ensures query == [] ==> (b <==> view == PoolView || s.library == view)
  {
    EmptyQueryMatches(s.name);
    (view == PoolView || s.library == view) && Contains(Lower(s.name), Lower(query))
  }

  /** `samples.filter(...)`. */
  function Filtered(samples: seq<Sample>, view: string, query: string): (r: seq<Sample>)
    ensures |r| <= |samples|
    ensures forall s :: s in r ==> s in samples && Shown(s, view, query)
  {
    if samples == [] then []
    else
      var rest := Filtered(samples[1..], view, query);
      if Shown(samples[0], view, query) then [samples[0]] + rest else rest
  }

  /**
   * The list shown keeps the order of the samples and leaves out exactly
   * those that fail the test; a sample that passes is listed as many times
   * as it occurs.
   */
  lemma {:induction false} FilteredIsOrderedSelection(samples: seq<Sample>, view: string, query: string)
    ensures IsSubsequence(Filtered(samples, view, query), samples)
    ensures forall s :: s in samples && Shown(s, view, query) ==> s in Filtered(samples, view, query)
    ensures forall s :: multiset(Filtered(samples, view, query))[s] == if Shown(s, view, query) then multiset(samples)[s] else 0
    decreases |samples|
  {
    FilteredMultiplicity(samples, view, query);
    if samples != [] {
      var r := Filtered(samples, view, query);
      var rest := samples[1..];
      FilteredIsOrderedSelection(rest, view, query);
      if Shown(samples[0], view, query) {
        assert r[0] == samples[0] && r[1..] == Filtered(rest, view, query);
      } else if r != [] {
        assert IsSubsequence(r, samples[1..]);
      }
      forall s | s in samples && Shown(s, view, query)
        ensures s in r
      {
        if s != samples[0] {
          assert s in rest;
        }
      }
    }
  }

  lemma {:induction false} FilteredMultiplicity(samples: seq<Sample>, view: string, query: string)
    ensures forall s :: multiset(Filtered(samples, view, query))[s] == if Shown(s, view, query) then multiset(samples)[s] else 0
    decreases |samples|
  {
    if samples != [] {
      var rest := samples[1..];
      FilteredMultiplicity(rest, view, query);
      assert samples == [samples[0]] + rest;
      assert multiset(samples) == multiset{samples[0]} + multiset(rest);
    }
  }

  lemma {:induction false} FilteredConcat(a: seq<Sample>, b: seq<Sample>, view: string, query: string)
    ensures Filtered(a + b, view, query) == Filtered(a, view, query) + Filtered(b, view, query)
    decreases |a|
  {
    if a == [] {
      assert a + b == b;
    } else {
      assert (a + b)[0] == a[0];
      assert (a + b)[1..] == a[1..] + b;
      FilteredConcat(a[1..], b, view, query);
    }
  }

  lemma EmptyQueryMatches(name: string)
    ensures Contains(Lower(name), Lower([]))
  {
    assert OccursAt(Lower(name), [], 0);
  }

  /** With the pool view and an empty search, every sample is listed, in order. */
  lemma {:induction false} PoolWithoutSearchListsAll(samples: seq<Sample>)
    ensures Filtered(samples, PoolView, []) == samples
    decreases |samples|
  {
    if samples != [] {
      PoolWithoutSearchListsAll(samples[1..]);
      assert [samples[0]] + samples[1..] == samples;
    }
  }

  /** Samples that all fail the test leave the list empty; samples that all pass it are listed as they are. */
  lemma {:induction false} FilteredAllOrNone(samples: seq<Sample>, view: string, query: string)
    ensures (forall s :: s in samples ==> !Shown(s, view, query)) ==> Filtered(samples, view, query) == []
    ensures (forall s :: s in samples ==> Shown(s, view, query)) ==> Filtered(samples, view, query) == samples
    decreases |samples|
  {
    if samples != [] {
      FilteredAllOrNone(samples[1..], view, query);
      assert forall s :: s in samples[1..] ==> s in samples;
      assert [samples[0]] + samples[1..] == samples;
    }
  }

  /**
   * After importing into a library no earlier sample belongs to, the view
   * of that library without a search lists exactly the new batch.
   */
  lemma NewLibraryListsTheBatch(before: seq<Sample>, files: seq<FileDescriptor>, library: string, genre: string)
    requires library != PoolView
    requires forall s :: s in before ==> s.library != library
    ensures Filtered(before + Processed(files, library, genre), library, []) == Processed(files, library, genre)
  {
    ProcessedRecords(files, library, genre);
    OneLibraryBatchListed(before, Processed(files, library, genre), library);
  }

  lemma OneLibraryBatchListed(before: seq<Sample>, batch: seq<Sample>, library: string)
    requires library != PoolView
    requires forall s :: s in before ==> s.library != library
    requires forall s :: s in batch ==> s.library == library
    ensures Filtered(before + batch, library, []) == batch
  {
    FilteredConcat(before, batch, library, []);
    FilteredAllOrNone(before, library, []);
    FilteredAllOrNone(batch, library, []);
  }

  // ------------------------------------------------------------------
  // The component state
  // ------------------------------------------------------------------

  predicate NoDuplicates(xs: seq<string>)
  {
    forall i, j :: 0 <= i < j < |xs| ==> xs[i] != xs[j]
  }

  /** The library list after `if (!libraries.includes(lib)) setLibraries(p => [...p, lib])`. */
  function WithLibrary(libraries: seq<string>, lib: string): (r: seq<string>)
    ensures lib in r && forall x :: x in r <==> x in libraries || x == lib
    ensures NoDuplicates(libraries) ==> NoDuplicates(r)
    ensures lib in libraries ==> r == libraries
    ensures lib !in libraries ==> r == libraries + [lib]
  {
    if lib in libraries then libraries else libraries + [lib]
  }

  class App {
    var samples: seq<Sample>
    var libraries: seq<string>
    var currentView: string
    var playingId: Option<string>
    var searchQuery: string
    /** The `src` of the audio element. */
    var audioSrc: string

    /**
     * The library list has no repeats, every sample's library is listed,
     * and the view is the pool or a listed library.
     */
    predicate Valid()
      reads this
    {
      && NoDuplicates(libraries)
      && (forall s :: s in samples ==> s.library in libraries)
      && (currentView == PoolView || currentView in libraries)
    }

    /** The list the component renders. */
    function Visible(): seq<Sample>
      reads this
    {
      Filtered(samples, currentView, searchQuery)
    }

    /** The initial state: nothing imported, pool view, nothing playing, no search. */
    constructor ()
      ensures Valid()
      ensures samples == [] && libraries == [] && currentView == PoolView
      ensures playingId == None && searchQuery == [] && audioSrc == []
    {
      samples := [];
      libraries := [];
      currentView := PoolView;
      playingId := None;
      searchQuery := [];
      audioSrc := [];
    }

    /**
     * `handleImport` once the main process has answered with `result`:
     * a result with files appends one record per file and switches to the
     * batch's library, adding its name when it is new; a null result or
     * one without files changes nothing.
     */
    method HandleImport(result: Option<ImportResult>, config: ImportConfig)
      requires Valid()
      modifies this
      ensures Valid()
      ensures result.Some? && |result.value.files| > 0 ==>
        var library := LibraryName(config, result.value.folderName);
        && samples == old(samples) + Processed(result.value.files, library, config.genre)
        && libraries == WithLibrary(old(libraries), library)
        && currentView == library
      ensures !(result.Some? && |result.value.files| > 0) ==>
        samples == old(samples) && libraries == old(libraries) && currentView == old(currentView)
      ensures playingId == old(playingId) && searchQuery == old(searchQuery) && audioSrc == old(audioSrc)
      ensures result.Some? && |result.value.files| > 0 && searchQuery == [] ==>
        var library := LibraryName(config, result.value.folderName);
        library != PoolView && library !in old(libraries) ==>
          Visible() == Processed(result.value.files, library, config.genre)
    {
      if result.Some? && |result.value.files| > 0 {
        var finalLibName := LibraryName(config, result.value.folderName);
        var processed := Processed(result.value.files, finalLibName, config.genre);
        ProcessedRecords(result.value.files, finalLibName, config.genre);
        AppendBatch(processed, finalLibName);
      }
    }

    /**
     * The three updates of an import with files: the batch is appended to
     * the samples, its library is added when it is new, and the view
     * switches to it.
     */
    method AppendBatch(batch: seq<Sample>, library: string)
      requires Valid()
      requires forall s :: s in batch ==> s.library == library
      modifies this
      ensures Valid()
      ensures samples == old(samples) + batch
      ensures libraries == WithLibrary(old(libraries), library)
      ensures currentView == library
      ensures playingId == old(playingId) && searchQuery == old(searchQuery) && audioSrc == old(audioSrc)
      ensures searchQuery == [] && library != PoolView && library !in old(libraries) ==> Visible() == batch
    {
      ghost var before := samples;
      samples := samples + batch;
      if library !in libraries {
        libraries := libraries + [library];
      }
      currentView := library;
      assert libraries == WithLibrary(old(libraries), library);
      assert forall s :: s in samples ==> s in before || s in batch;
      if library != PoolView && library !in old(libraries) {
        OneLibraryBatchListed(before, batch, library);
      }
    }

    /**
     * `togglePlay(s)`: the sample playing is paused and nothing plays;
     * any other sample becomes the audio source through its `file:///`
     * URI, and becomes the sample playing when `play()` succeeds.
     */
    method TogglePlay(s: Sample, playSucceeds: bool)
      requires Valid()
      modifies this`playingId, this`audioSrc
      ensures Valid()
      ensures old(playingId) == Some(s.id) ==> playingId == None && audioSrc == old(audioSrc)
      ensures old(playingId) != Some(s.id) ==>
        && audioSrc == FileUri(s.path)
        && playingId == (if playSucceeds then Some(s.id) else old(playingId))
    {
      if playingId == Some(s.id) {
        playingId := None;
      } else {
        var cleanPath := SlashPath(s.path);
        var encodedPath := ReplaceAll(ReplaceAll(EncodeUri(cleanPath), '#', "%23"), '?', "%3F");
        audioSrc := "file:///" + encodedPath;
        if playSucceeds {
          playingId := Some(s.id);
        }
      }
    }

    /** The "pool" button of the sidebar. */
    method ShowPool()
      requires Valid()
      modifies this`currentView
      ensures Valid() && currentView == PoolView
      ensures searchQuery == [] ==> Visible() == samples
    {
      currentView := PoolView;
      PoolWithoutSearchListsAll(samples);
    }

    /** A library button of the sidebar: only listed libraries have one. */
    method ShowLibrary(library: string)
      requires Valid() && library in libraries
      modifies this`currentView
      ensures Valid() && currentView == library
    {
      currentView := library;
    }

    /** The search box. */
    method SetSearchQuery(query: string)
      requires Valid()
      modifies this`searchQuery
      ensures Valid() && searchQuery == query
    {
      searchQuery := query;
    }
  }

  /** Toggling the same sample twice after it started playing stops it, and the source stays that sample's URI. */
  method ToggleTwice(app: App, s: Sample)
    requires app.Valid() && app.playingId != Some(s.id)
    modifies app
    ensures app.Valid() && app.playingId == None && app.audioSrc == FileUri(s.path)
  {
    app.TogglePlay(s, true);
    app.TogglePlay(s, true);
  }
}
