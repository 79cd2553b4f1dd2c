# fuzzy_mover in Dafny

fuzzy_mover moves downloaded files into the directory whose name best matches
the file's name. For each input file it asks a fuzzy-matching library to score
every directory name against the file's stem. The library returns only the
best-scored names (five, its default limit, since no `limit` is passed). The
program maps each of those names back to every directory whose path contains
it, and offers those
directories one by one until the user accepts one (or, with `--yes`, takes the
first). The file is then copied to the accepted directory and the original is
removed, after an overwrite question when the destination already exists.

The model has two modules:

- `Matcher` (matcher.dfy) models `find_closest_directories`. The list that
  `process.extract` returns is an input (`seq<Scored>`). The directory
  dictionary is given by its keys in insertion order (`seq<Path>`). The
  nested loops are a method, `FindClosestDirectories`. It is proved equal to
  a reference definition: the list of every candidate (directory, score) pair
  in loop order, with repeats dropped (`Reassociation = Dedup ∘ Candidates`).
  Soundness, completeness, absence of duplicates and ordering are proved about
  that definition.
- `Mover` (mover.dfy) models `confirm_move` and the loops of `main`. The file
  system is a class holding a map from path to bytes and a trace of writes and
  removals. The console is a sequence of answer lines, shared by the move and
  overwrite questions because both read from `input()`.

The model follows the code as written, including where it departs from the
tool's intended design:

- the `threshold` argument is overwritten with 0, so only negative scores
  are filtered out;
- a name is matched to a directory when it is a substring of the directory's
  path, not when it equals the directory's name;
- duplicates are removed by the (directory, score) pair, so one directory can
  appear with two scores;
- a file with no match ends the whole run through `exit(1)`, instead of moving
  on to the next file;
- there is no "skip" answer;
- the overwrite question compares the raw answer with `"n"`, so `"N"`
  declines the move question but answers yes to the overwrite question.

## Model

| member | source | states |
|---|---|---|
| `Matcher.Contains` | file_fuzzy.py:18 | the substring test `match in str(dir)`: a name that is a prefix of the path is found, and a name longer than the path never is |
| `Matcher.ContainsIffOccurs` | file_fuzzy.py:18 | the substring test `match in str(dir)` holds exactly when the name occurs at some index of the path |
| `Matcher.AboveThreshold` | file_fuzzy.py:13 | the filter keeps exactly the extracted pairs whose score is at least the threshold; it never grows the list; when every pair passes, the list is unchanged |
| `Matcher.AboveThresholdAppend` | file_fuzzy.py:13 | the filter distributes over concatenation, and a single pair is kept alone or dropped: the kept list is the passing pairs in their original order, each as often as in the input |
| `Matcher.AboveThresholdKeepsRanking` | file_fuzzy.py:12-13 | filtering keeps a list ranked by non-increasing score ranked |
| `Matcher.ZeroThresholdKeepsLibraryScores` | file_fuzzy.py:11-13 | since the threshold is reassigned to 0, every extracted pair with a score in 0..100 is kept, whatever threshold the caller passed |
| `Matcher.Remember` | file_fuzzy.py:18-19 | one step of the inner loop appends the pair unless the list already holds it; the old list is a prefix of the new one, the pair is then present, and no duplicate is introduced |
| `Matcher.DedupOnto` | file_fuzzy.py:16-19 | appending a sequence of pairs this way yields exactly the old and new pairs, keeps the old list as a prefix, and introduces no duplicate |
| `Matcher.Dedup` | file_fuzzy.py:15-19 | starting from the empty list, the result holds exactly the input's pairs, each once |
| `Matcher.DedupOntoAppend` | file_fuzzy.py:16-19 | deduplicating two runs of candidates one after the other equals deduplicating their concatenation, which is what lets the outer loop be taken one group at a time |
| `Matcher.DedupKeepsDiscoveryOrder` | file_fuzzy.py:15-19 | the deduplicated list keeps first occurrences in their original order |
| `Matcher.Group` | file_fuzzy.py:17-19 | one pass of the inner loop considers exactly the pairs (key, score) whose key contains the extracted name |
| `Matcher.Candidates` | file_fuzzy.py:16-19 | the two loops consider exactly the pairs (key, score) supported by some kept extracted pair with that score whose name is inside the key |
| `Matcher.Reassociation` | file_fuzzy.py:15-19 | the list built by the loops is sound and complete (a pair is present iff its directory is a key and a kept extracted pair with its score has its name inside the path) and has no duplicate pair |
| `Matcher.CandidatesKeepRanking` | file_fuzzy.py:16-19 | when the kept pairs are ranked by non-increasing score, so are the candidates, because groups follow the extracted order |
| `Matcher.DedupOntoKeepsRanking` | file_fuzzy.py:18-19 | dropping repeats keeps a ranked list ranked |
| `Matcher.ReassociationKeepsRanking` | file_fuzzy.py:15-19 | if the kept pairs the loops go through are ranked by non-increasing score, so is the result |
| `Matcher.ClosestKeepsRanking` | file_fuzzy.py:12-19 | if the extracted list is ranked by non-increasing score (as `process.extract` returns it), so is the list `find_closest_directories` returns |
| `Matcher.ReassociationKeepsDiscoveryOrder` | file_fuzzy.py:16-19 | the result lists each pair in the order the loops first produce it: groups in extracted order, keys in insertion order within a group |
| `Matcher.ClosestAgainstExtract` | file_fuzzy.py:11-24 | stated against the raw extracted list: a pair is in the result iff its directory is a key and some extracted pair with that score, at least 0, has its name inside the path; the result is empty iff no extracted name with a non-negative score lies inside any key |
| `Matcher.FindClosestDirectories` | file_fuzzy.py:8-24 | the method ignores its threshold argument; it ends with `exit(1)` exactly when no close match exists, and otherwise returns a non-empty list, the sound, complete, duplicate-free list `Reassociation` defines |
| `Mover.Lower` | file_fuzzy.py:28 | lower-casing keeps the length and lower-cases each character |
| `Mover.ConfirmMove` | file_fuzzy.py:27-29 | the move question is declined only by `"n"` or `"N"`; every other answer accepts, including the empty line |
| `Mover.OverwriteDeclined` | file_fuzzy.py:67 | the overwrite question compares the raw answer with `"n"`: every answer that declines the overwrite also declines the move question, but `"N"` declines the move and accepts the overwrite |
| `Mover.Join` | file_fuzzy.py:66 | the destination path is the directory, one separator and the file's name, each readable back from the path |
| `Mover.AfterCopy` | file_fuzzy.py:68 | after the write, the destination holds the source's bytes, the destination is added to the existing paths, and every other path keeps its bytes |
| `Mover.AfterMove` | file_fuzzy.py:68-69 | after write and unlink, the paths are the old ones plus the destination minus the source; a distinct destination holds the source's bytes and every other path keeps its bytes |
| `Mover.MovePreservesContents` | file_fuzzy.py:68-69 | a move to a different path puts the source's bytes at the destination, removes the source and leaves every other path unchanged |
| `Mover.InterruptedMoveKeepsBothCopies` | file_fuzzy.py:68-69 | between the write and the unlink, the source still holds its original bytes and the destination holds them too |
| `Mover.MoveOntoItselfLosesFile` | file_fuzzy.py:66-69 | when the destination path is the source path, write-then-unlink leaves no copy of the file |
| `Mover.FileSystem.Exists` | file_fuzzy.py:67 | the existence test on the destination is true exactly when the path is a file |
| `Mover.FileSystem.ReadBytes` | file_fuzzy.py:68 | reading gives the file's bytes, or the missing-file error when the path is absent |
| `Mover.FileSystem.WriteBytes` | file_fuzzy.py:68 | writing replaces or creates the destination and records a write event |
| `Mover.FileSystem.Unlink` | file_fuzzy.py:69 | unlinking removes the path and records a removal event |
| `Mover.OfferMatches` | file_fuzzy.py:60-73 | the accepted candidate is the first one accepted: index 0 with `--yes`, otherwise the first whose answer is not n/N, with all earlier answers n/N. The overwrite question is asked exactly when the destination exists, and exactly `"n"` keeps both files. A move writes the source's bytes and then unlinks the source, in that order in the trace. Every other outcome leaves files and trace unchanged. The loop stops after the first acceptance. The `else` branch runs exactly when every candidate is declined |
| `Mover.ProcessFile` | file_fuzzy.py:53-73 | one file ends the run with `exit(1)` exactly when it has no close match; otherwise its offer adds two trace events if it moved the file and changes nothing if it did not |
| `Mover.MoveFiles` | file_fuzzy.py:46-73 | no input files means the run ends before any matching; every processed file had a close match; the first file without one ends the run with status 1; an exception ends the run at the file that raised it; the trace grows by exactly two events per moved file, and nothing changes when no file moved |

## Left out

- `process.extract` and the `fuzz` scorers (file_fuzzy.py:2-3, 12) are a foreign library. Their output is an input of `FindClosestDirectories`. The query string (the file's stem) therefore does not appear in the model. The real call at line 12 passes no `limit`, so the list has at most five pairs (the library's default); the model accepts an extracted list of any length, so its completeness is relative to the list given, not to every directory name.
- The values of the directory dictionary only feed `process.extract`, so only its keys, in insertion order, are modelled.
- Argument parsing (file_fuzzy.py:31-37) and every `print` are console I/O and are not modelled.
- Path semantics are not modelled: `expanduser`, `resolve`, `glob`, `rglob`, `is_dir`, `stem` and `name` (file_fuzzy.py:43-55). The input files and the directory keys are given, with each path taken in its string form.
- `download_directory / match` (file_fuzzy.py:61) is taken to be `match` itself. That is pathlib's result when `match` is absolute. With a relative `-o` root, pathlib would prefix the root twice, which is not modelled.
- `destination_directory / input_file.name` is modelled as joining the two strings with `/`.
- `Mover.Lower`: lowers ASCII letters only, not the full Unicode case mapping of `str.lower()`.
- `Path.exists()` is also true for a directory. The file-system model holds only files, so a directory at the destination path is not modelled.
- Exceptions are modelled as outcomes that end the run: `EOFError` from `input()` at either question, and `FileNotFoundError` from `read_bytes`. Other OS errors from `write_bytes` or `unlink` are not modelled. The only partial-failure state modelled is the one between the write and the unlink (`InterruptedMoveKeepsBothCopies`).
- `Mover.FileSystem.Unlink` requires the path to exist, where Python would raise. Its one caller has just read that path, and nothing has removed it since.
- `Mover.ProcessFile`: states only the outcome kind and the file-system effects that `MoveFiles` needs. The full per-offer contract is the one of `OfferMatches`.
- `Mover.MoveFiles`: states the length of the trace and that nothing changes when no file moved. It does not state the combined effect of successive moves on the file map.
