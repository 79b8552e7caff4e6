# Sample browser: tagger, importer and renderer state in Dafny

A model of the logic of a small desktop sample browser. The main process
walks a chosen folder for audio files, or stats an explicit file
selection (`src/main/index.js`). The renderer tags every file from its
name with a tempo, a musical key and a category, and appends the records
to an in-memory library. It lists them by library and search text, and
plays one at a time through a `file:///` URI (`src/renderer/src/App.jsx`).

Modules, one per file:

- `Wrappers` (`wrappers.dfy`): `Option`, standing for JavaScript's `null`.
- `Chars` (`chars.dfy`): ASCII digits and case mapping, and JavaScript's whitespace set, the one used by `\s` and by `trim`. It also has `includes` as substring search, and suffix tests.
- `Seqs` (`seqs.dfy`): order-preserving subsequences.
- `Paths` (`paths.dfy`): `path.join` and `path.basename` for POSIX paths.
- `Tagger` (`tagger.dfy`): `detectMetadata`.
  - The two regular expressions are modelled as the leftmost, backtracking search that JavaScript performs.
  - Each search is proved against a grammar of the matched text.
- `Scanner` (`scanner.dfy`): the extension test, `scanDirectory` over an abstract tree, and the `import-content` handler.
- `Uri` (`uri.dfy`): the path-to-URI steps of `togglePlay`. They are proved equal to a per-character escape, and percent-decoding the result is proved to give the UTF-8 bytes of the path, with `/` in place of each `\`.
- `Browser` (`browser.dfy`): the component state as a class `App`. It holds the record building of an import, the `filtered` list and the toggle rule.

The filesystem is an abstract tree of `Dir`, `File(size, mtime)`,
`StatFails` and `ReaddirFails` entries. In files mode, `statSync` is a
function from path to an optional stat. Whether `play()` succeeds is a
parameter of `TogglePlay`.

Places where the code does something other than a natural first reading of it:

- The tempo pattern reads as "the number written before bpm". It is the leftmost match, so "99bpm 120bpm" gives 99. `\d{2,3}` backtracks, so "1200bpm" gives 200.
- The library name reads as trimmed, like the genre. It is the typed name *untrimmed* whenever its trimmed form is non-empty. Only the genre is stored trimmed.
- `[#b]` reads as a lower-case flat or a sharp. Under `/i` it also accepts `B`, and the mode token may be in any case. A key is therefore upper case with `#` or `B` as accidental.
- The key pattern reads as a key written on its own. It has no word boundary, so the "am" inside "sample", "ambient" or "game" is taken as A minor: "sample" gives the key "AM".
- A library named "pool" reads as one more library. Its name is the pool view's, so choosing it, or importing into it, lists every sample of every library.

## Model

| member | source | states |
|---|---|---|
| `Tagger.Decimal` | src/renderer/src/App.jsx:18 | `parseInt` of n decimal digits is below 10 to the n. Which digits are read is `BpmIsLeftmostMatch` |
| `Tagger.Bpm` | src/renderer/src/App.jsx:18 | a tempo, when there is one, is between 0 and 999 |
| `Tagger.FindBpm` | src/renderer/src/App.jsx:7 | the search returns the first start where `(\d{2,3})\s?bpm` matches, and none before it matches |
| `Tagger.BpmIsLeftmostMatch` | src/renderer/src/App.jsx:7 | the tempo is null exactly when no 2–3 digits, optional whitespace and "bpm" in any case occur. Otherwise it is the decimal value of the digits of the leftmost occurrence |
| `Tagger.BpmAfterDigitFreePrefix` | src/renderer/src/App.jsx:7 | tempo text after a prefix without digits is the one found, whatever follows |
| `Tagger.ExampleBpm120` | src/renderer/src/App.jsx:18 | "120bpm" gives 120 |
| `Tagger.ExampleBpmSpace` | src/renderer/src/App.jsx:18 | "Pad 120 BPM.wav" gives 120 |
| `Tagger.ExampleBpmBacktrack` | src/renderer/src/App.jsx:7 | "1200bpm" gives 200, because the greedy digit run backtracks |
| `Tagger.ExampleBpmFirst` | src/renderer/src/App.jsx:7 | "99bpm 120bpm" gives 99: the leftmost match wins |
| `Tagger.Key` | src/renderer/src/App.jsx:19 | a key found is at least two characters and starts with an upper-case note letter A–G. Which text it is, is fixed by `KeyIsLeftmostLongestMatch`; its shape by `KeyIsNormalized` |
| `Tagger.FindKey` | src/renderer/src/App.jsx:8 | the search returns the first start where the key pattern matches |
| `Tagger.KeyIsLeftmostLongestMatch` | src/renderer/src/App.jsx:8 | the key is null exactly when no key text occurs. Otherwise it is the upper-cased leftmost occurrence, the longest at that start |
| `Tagger.KeyIsNormalized` | src/renderer/src/App.jsx:19 | a key found starts with A–G, then an optional `#`/`B` and optional whitespace. It ends in "MIN", "MAJ" or "M", with no lower-case letter |
| `Tagger.ExampleKeyMaj` | src/renderer/src/App.jsx:19 | "Cmaj" gives "CMAJ" |
| `Tagger.ExampleKeyMin` | src/renderer/src/App.jsx:19 | "a#min" gives "A#MIN" |
| `Tagger.ExampleKeySample` | src/renderer/src/App.jsx:8 | "sample" gives "AM": the pattern has no word boundary |
| `Tagger.CategoryOf` | src/renderer/src/App.jsx:9-15 | the category is Kick exactly when the lower-cased name contains "kick", whatever else it contains. The whole priority order is `CategoryIsFirstHit` |
| `Tagger.Label` | src/renderer/src/App.jsx:9-15 | the text stored for each category ("Kick", "Snare", "HiHat", "Bass", "Loop", "Other") is non-empty and capitalised |
| `Tagger.CategoryIsFirstHit` | src/renderer/src/App.jsx:9-15 | the category is that of the first of kick, snare, hat, bass, loop occurring in the lower-cased name. It is Other exactly when none occurs |
| `Tagger.ExampleCategory` | src/renderer/src/App.jsx:11 | "kick_bass_01.wav" is Kick |
| `Tagger.OtherWithoutKeywordInitials` | src/renderer/src/App.jsx:9 | a name with none of the letters k, s, h, b, l in any case is Other |
| `Tagger.DetectMetadata` | src/renderer/src/App.jsx:6-22 | total; the tempo is at most 999 and the category is the chain's result |
| `Chars.Lower` | src/renderer/src/App.jsx:10 | `toLowerCase` keeps the length and lower-cases each character in place |
| `Chars.Upper` | src/renderer/src/App.jsx:19 | `toUpperCase` keeps the length and upper-cases each character in place |
| `Chars.Contains` | src/renderer/src/App.jsx:11 | `includes` holds exactly when the text occurs at some index |
| `Chars.Trim` | src/renderer/src/App.jsx:64-65 | the trimmed text is no longer than the input and neither starts nor ends in whitespace. `TrimIsCore` and `TrimEmptyIff` fix it exactly |
| `Chars.TrimEmptyIff` | src/renderer/src/App.jsx:64 | a trimmed text is empty exactly when every character is whitespace |
| `Chars.TrimIsCore` | src/renderer/src/App.jsx:65 | the trimmed text is the slice of the input between a run of leading whitespace and a run of trailing whitespace |
| `Paths.Join` | src/main/index.js:50 | the joined path is the directory, one separator, then the name |
| `Paths.Basename` | src/main/index.js:92 | a base name contains no separator |
| `Paths.BasenameOfJoin` | src/main/index.js:50 | the base name of a path joined from a non-empty name without separators is that name |
| `Scanner.IsAudioName` | src/main/index.js:56 | a name the test accepts has a "." and at least four characters. `AudioNameIffExtension` states the test exactly |
| `Scanner.AudioNameIffExtension` | src/main/index.js:56 | a name passes the test exactly when the text after its last "." is wav, mp3, aif, flac, ogg or m4a in any case ("x.aiff" and "x.txt" fail) |
| `Scanner.ScanDirectory` | src/main/index.js:45-69 | the loop returns the walk of the listing: each file pushed, each subdirectory's results spliced in, in listing order |
| `Scanner.Scan` | src/main/index.js:45-69 | every descriptor the walk returns names a supported audio file. Which ones it returns is `ScanIffReaches` |
| `Scanner.ScanEntries` | src/main/index.js:49-66 | the `forEach` over a listing returns only supported audio files. Each entry's results sit at its position, by `SubdirectorySplicedInPlace` |
| `Scanner.Visit` | src/main/index.js:50-65 | an entry that is not a directory adds at most one descriptor, and only for a supported audio file |
| `Scanner.ScanIffReaches` | src/main/index.js:49-63 | a descriptor is returned exactly when it describes a supported file reached through directories. Its path is joined from the directory and its size and date come from that entry's stat. Directories are never returned |
| `Scanner.ScanNamesArePathBasenames` | src/main/index.js:57-59 | in a tree of plain names, each descriptor's name is the base name of its path |
| `Scanner.SubdirectorySplicedInPlace` | src/main/index.js:53-54 | a subdirectory's results appear at its position in the listing, and the directory itself adds no descriptor |
| `Scanner.StatFailureDropsOnlyThatEntry` | src/main/index.js:51-65 | an entry whose stat throws is dropped and its siblings are returned as if it were absent |
| `Scanner.ReaddirFailureYieldsNothing` | src/main/index.js:47-67 | a directory whose listing throws contributes nothing and its siblings are still returned |
| `Scanner.ScanCount` | src/main/index.js:45-69 | the number of descriptors is the number of supported files in the tree |
| `Scanner.DescribePath` | src/main/index.js:98-106 | null exactly when the stat throws; otherwise the path, its base name and that stat's size and date. `SelectedFilesSpec` gives the list |
| `Scanner.StatEach` | src/main/index.js:97-106 | the map gives one entry per selected path |
| `Scanner.DropNulls` | src/main/index.js:107 | the filter is never longer than its input and keeps only values present in it |
| `Scanner.SelectedFiles` | src/main/index.js:97-107 | files mode gives at most one descriptor per selected path, each for a selected path. `SelectedFilesSpec` pins the rest |
| `Scanner.SelectedFilesSpec` | src/main/index.js:96-107 | files mode keeps, in order, exactly the paths whose stat succeeds, with no extension filter. There are P minus the failures of them, each named by its base name with its own stat |
| `Scanner.ImportContent` | src/main/index.js:85-112 | null exactly for an empty selection. Folder mode scans only the first path and names it by its base name. Otherwise files mode is used, named "Selección Individual" |
| `Uri.Utf8` | src/renderer/src/App.jsx:106 | one to four bytes; ASCII is its own code, continuation bytes are 0x80–0xBF |
| `Uri.SlashPath` | src/renderer/src/App.jsx:102 | every backslash becomes '/', and no backslash is left |
| `Uri.FileUri` | src/renderer/src/App.jsx:109 | the source is "file:///" followed by the encoded path |
| `Uri.PieceOfChar` | src/renderer/src/App.jsx:106 | after the two replacements, each character's `encodeURI` text is itself or its percent-encoded UTF-8 bytes |
| `Uri.EncodeUriChar` | src/renderer/src/App.jsx:106 | `encodeURI` keeps a kept character as it is and writes any other as an escape starting with '%'. Its text after the two replacements is `PieceOfChar` |
| `Uri.EncodeUri` | src/renderer/src/App.jsx:106 | `encodeURI` is never shorter than its input, writes only '%' and kept characters, and leaves a text of kept characters unchanged. `EncodeThenReplaceIsEscape` relates it to the escape |
| `Uri.ReplaceAll` | src/renderer/src/App.jsx:106 | a global one-character replace leaves only characters of the input other than the pattern, or of the replacement. `ReplaceAllConcat` and `ReplaceAllAbsent` give its laws |
| `Uri.ReplaceAllConcat` | src/renderer/src/App.jsx:106 | replacing in a concatenation is concatenating the replacements |
| `Uri.EncodeThenReplaceIsEscape` | src/renderer/src/App.jsx:106 | `encodeURI` followed by the two replacements is the per-character escape |
| `Uri.Utf8Injective` | src/renderer/src/App.jsx:106 | two characters with the same UTF-8 bytes are the same character |
| `Uri.EncodedPath` | src/renderer/src/App.jsx:106 | the encoded path is the normalised path written character by character as its escape: kept characters as they are, any other as its percent-encoded UTF-8 bytes |
| `Uri.EncodedPathIsClean` | src/renderer/src/App.jsx:106 | the encoded path contains no backslash, '#', '?' or space, only '%' and kept characters |
| `Uri.EncodedPathRoundTrip` | src/renderer/src/App.jsx:104-106 | percent-decoding the encoded path gives the UTF-8 bytes of the normalised path |
| `Uri.EncodedPlainPath` | src/renderer/src/App.jsx:106 | a path made only of kept characters is its own encoding |
| `Browser.ToSample` | src/renderer/src/App.jsx:67-77 | a record carries its descriptor unchanged, is keyed by its path, belongs to the batch's library and has a tempo of at most 999 |
| `Browser.CategoryLabel` | src/renderer/src/App.jsx:73 | a stored category is never empty and never starts or ends in whitespace |
| `Browser.Processed` | src/renderer/src/App.jsx:67-77 | one record per file |
| `Browser.ProcessedRecords` | src/renderer/src/App.jsx:67-77 | taking the descriptors back out of the batch gives the files. Each record has `id == path` and the batch's library, and is tagged from its name. The category is the trimmed genre unless that is empty |
| `Browser.LibraryName` | src/renderer/src/App.jsx:64 | the typed name is used when it has a non-whitespace character, else the folder name |
| `Browser.Shown` | src/renderer/src/App.jsx:120-121 | with an empty search, a sample passes exactly when the view is the pool or its own library |
| `Browser.Filtered` | src/renderer/src/App.jsx:119-122 | no longer than the samples, and every sample listed is a sample that passes the view and search test |
| `Browser.FilteredIsOrderedSelection` | src/renderer/src/App.jsx:119-122 | the list is an order-preserving subsequence of the samples holding every sample that passes the test, each as many times as it occurs among the samples |
| `Browser.PoolWithoutSearchListsAll` | src/renderer/src/App.jsx:119-122 | with the pool view and an empty search, every sample is listed in order |
| `Browser.FilteredAllOrNone` | src/renderer/src/App.jsx:119-122 | samples all failing the test give an empty list; samples all passing it are listed as they are |
| `Browser.NewLibraryListsTheBatch` | src/renderer/src/App.jsx:79-81 | after an import into a library other than "pool" that no earlier sample belongs to, that library's view without search lists exactly the batch |
| `Browser.WithLibrary` | src/renderer/src/App.jsx:80 | the name is added only when absent, so a list without repeats keeps none |
| `Browser.App.constructor` | src/renderer/src/App.jsx:41-46 | nothing imported, pool view, nothing playing, empty search |
| `Browser.App.HandleImport` | src/renderer/src/App.jsx:57-89 | a result with files appends exactly its records after the old samples. It adds the library only if absent and switches the view to it. A null or empty result changes nothing. The invariant (no repeated library, every sample's library listed, view valid) is kept. With no search text, a new library other than "pool" shows exactly the batch |
| `Browser.App.AppendBatch` | src/renderer/src/App.jsx:79-81 | the batch goes after the old samples, its library is added only if absent, and the view becomes that library. The invariant is kept. With no search text, a new library other than "pool" shows exactly the batch |
| `Browser.App.TogglePlay` | src/renderer/src/App.jsx:96-117 | toggling the sample playing clears `playingId`. Any other sample becomes the source through its `file:///` URI, and becomes the one playing when `play()` succeeds |
| `Browser.ToggleTwice` | src/renderer/src/App.jsx:96-117 | starting a sample and toggling it again leaves nothing playing, with that sample's URI as source |
| `Browser.App.ShowPool` | src/renderer/src/App.jsx:183 | the view becomes "pool", which with no search text lists every sample in order |
| `Browser.App.ShowLibrary` | src/renderer/src/App.jsx:190 | the view becomes a listed library |
| `Browser.App.SetSearchQuery` | src/renderer/src/App.jsx:201 | the search text is replaced |

## Left out

- Window creation, the native open dialog, IPC and drag-to-DAW (`startDrag`) are platform calls with no logic. The dialog's answer is the `filePaths` parameter of `ImportContent`. The IPC answer is the `result` parameter of `HandleImport`.
- Real filesystem calls are replaced by an abstract tree and a stat function. Symbolic-link cycles, which the code does not guard against, cannot be expressed in a finite tree.
- `path.join` normalisation of ".", ".." and doubled separators is left out. Windows separators in `join`/`basename` are left out too.
- A stat whose result is null or falsy (the `stat &&` guard) cannot arise from `statSync`, and is not modelled.
- Dates are opaque integers.
- Playback is left out: the `Audio` element, the `play()` promise and `pause()`. Only the state outcome is kept.
- The "Error al importar." path is left out. It is a rejected IPC call; it logs, alerts and leaves the state unchanged.
- React rendering, `alert`, `console` and the `Waveform` bars (driven by `Math.random`) are not modelled.
- Case mapping is ASCII-only. Under `/i` without the `u` flag, JavaScript never folds a non-ASCII character onto an ASCII one, so the three regular expressions (tempo, key and audio extension) are exact.
- Chars.Lower: `toLowerCase` in the category chain and the search maps non-ASCII letters too. This model leaves them unchanged.
- Uri.EncodedPath: `encodeURI` throws on a lone surrogate. Dafny characters are Unicode scalar values, so that case cannot be written.
- Browser.App.HandleImport: an import is one atomic step. In the component, the check for a new library name reads the list captured before the `await` on the dialog, while the appends go through updater callbacks that see the latest state. Two imports started before either dialog closes, both naming the same new library, would therefore both add it. `Valid()`'s "no repeated library" holds only for imports that run one after another.
- Scanner.ImportContent: the folder's tree is taken from the filesystem parameter at the first path. A file chosen as the folder is a non-directory node and yields an empty list, as `readdirSync` would throw.
