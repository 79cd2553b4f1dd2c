/**
 * The mover of fuzzy_mover: `confirm_move` and the loops of `main` in
 * file_fuzzy.py that offer each match to the user and move the file.
 *
 * Console input is a sequence of answer lines consumed in order (both
 * questions read from the same stream); the file system is an object holding
 * a map from path to contents and a trace of the writes and removals done.
 */
module Mover {
  import opened Matcher

  type Bytes = seq<bv8>

  datatype Option<T> = None | Some(value: T)

  /** An observable change to the file system. */
  datatype Event = Wrote(path: Path, data: Bytes) | Unlinked(path: Path)

  // ---------------------------------------------------------------------------
  // The two questions
  // ---------------------------------------------------------------------------

  /** ASCII lower-casing of one character. */
  function LowerChar(c: char): char {
    if 'A' <= c <= 'Z' then (c as int + 32) as char else c
  }

  /** `str.lower()`, restricted to ASCII letters. */
  function Lower(s: string): (r: string)
    ensures |r| == |s|
    ensures forall i :: 0 <= i < |s| ==> r[i] == LowerChar(s[i])
  {
    if s == [] then [] else [LowerChar(s[0])] + Lower(s[1..])
  }

  /**
   * `confirm_move`: the move question is declined only by "n" or "N"; every
   * other answer, the empty line included, accepts.
   */
  function ConfirmMove(answer: string): (accepted: bool)
    ensures accepted <==> answer != "n" && answer != "N"
  {
    Lower(answer) != "n"
  }

  /**
   * The overwrite question compares the raw answer with "n", without
   * lower-casing it. Every answer that declines the overwrite also declines
   * the move, but not the reverse: "N" declines the move and means yes to the
   * overwrite.
   */
  predicate OverwriteDeclined(answer: string): (declined: bool)
    ensures declined ==> !ConfirmMove(answer)
    ensures answer == "N" ==> !declined && !ConfirmMove(answer)
  {
    answer == "n"
  }

  // ---------------------------------------------------------------------------
  // Paths and the copy-then-delete move
  // ---------------------------------------------------------------------------

  /**
   * `destination_directory / input_file.name`: the directory, one separator,
   * then the name, so both parts can be read back from the path.
   */
  function Join(dir: Path, name: string): (path: Path)
    ensures |path| == |dir| + 1 + |name|
    ensures path[..|dir|] == dir && path[|dir|] == '/' && path[|dir| + 1..] == name
  {
    dir + "/" + name
  }

  /** The contents of the file system after `write_bytes` and before `unlink`. */
  function AfterCopy(files: map<Path, Bytes>, source: Path, dest: Path): (after: map<Path, Bytes>)
    requires source in files
    ensures after.Keys == files.Keys + {dest}
    ensures after[dest] == files[source]
    ensures forall p :: p in files && p != dest ==> after[p] == files[p]
  {
    files[dest := files[source]]
  }

  /** The contents of the file system after the whole move. */
  function AfterMove(files: map<Path, Bytes>, source: Path, dest: Path): (after: map<Path, Bytes>)
    requires source in files
    ensures after.Keys == files.Keys + {dest} - {source}
    ensures source != dest ==> after[dest] == files[source]
    ensures forall p :: p in after && p != dest ==> after[p] == files[p]
  {
    AfterCopy(files, source, dest) - {source}
  }

  /**
   * A move to a different path leaves the source's bytes at the destination,
   * removes the source and leaves every other path as it was.
   */
  lemma MovePreservesContents(files: map<Path, Bytes>, source: Path, dest: Path)
    requires source in files && source != dest
    ensures var after := AfterMove(files, source, dest);
      && dest in after && after[dest] == files[source]
      && source !in after
      && forall p :: p != source && p != dest ==> (p in after <==> p in files) && (p in files ==> after[p] == files[p])
  {
  }

  /**
   * A failure between the write and the unlink leaves the original bytes at
   * both the source and the destination: two copies when the paths differ,
   * and the untouched original when they are the same.
   */
  lemma InterruptedMoveKeepsBothCopies(files: map<Path, Bytes>, source: Path, dest: Path)
    requires source in files
    ensures var after := AfterCopy(files, source, dest);
      && source in after && after[source] == files[source]
      && dest in after && after[dest] == files[source]
  {
  }

  /**
   * When the destination is the source itself (a file offered its own
   * directory), the write changes nothing and the unlink removes the only copy.
   */
  lemma MoveOntoItselfLosesFile(files: map<Path, Bytes>, source: Path)
    requires source in files
    ensures source !in AfterMove(files, source, source)
    ensures |AfterMove(files, source, source)| == |files| - 1
  {
  }

  // ---------------------------------------------------------------------------
  // The file system
  // ---------------------------------------------------------------------------

  class FileSystem {
    var files: map<Path, Bytes>
    var trace: seq<Event>

    constructor (initial: map<Path, Bytes>)
      ensures files == initial && trace == []
    {
      files := initial;
      trace := [];
    }

    /** `Path.exists()` on a file path. */
    method Exists(path: Path) returns (found: bool)
      ensures found <==> path in files
    {
      found := path in files;
    }

    /** `Path.read_bytes()`: `None` stands for FileNotFoundError. */
    method ReadBytes(path: Path) returns (data: Option<Bytes>)
      ensures data.Some? <==> path in files
      ensures data.Some? ==> data.value == files[path]
    {
      if path in files {
        data := Some(files[path]);
      } else {
        data := None;
      }
    }

    /** `Path.write_bytes(data)`: creates or replaces the file. */
    method WriteBytes(path: Path, data: Bytes)
      modifies this
      ensures files == old(files)[path := data]
      ensures trace == old(trace) + [Wrote(path, data)]
    {
      files := files[path := data];
      trace := trace + [Wrote(path, data)];
    }

    /** `Path.unlink()` on an existing file. */
    method Unlink(path: Path)
      requires path in files
      modifies this
      ensures files == old(files) - {path}
      ensures trace == old(trace) + [Unlinked(path)]
    {
      files := files - {path};
      trace := trace + [Unlinked(path)];
    }
  }

  // ---------------------------------------------------------------------------
  // Offering the matches of one file
  // ---------------------------------------------------------------------------

  /** How the offering loop for one file ends. */
  datatype Offer =
    | Moved(index: nat, dest: Path)              // accepted, written and unlinked
    | Kept(index: nat, dest: Path)               // accepted, but the overwrite question got "n"
    | SourceMissing(index: nat, dest: Path)      // accepted; read_bytes raised FileNotFoundError
    | NoOverwriteAnswer(index: nat, dest: Path)  // accepted; the overwrite question met end of input
    | NoAnswer                                   // a move question met end of input
    | Exhausted                                  // every match declined: the `for ... else` branch
  {
    predicate Accepted() {
      Moved? || Kept? || SourceMissing? || NoOverwriteAnswer?
    }

    /** The outcomes where Python raises instead of carrying on. */
    predicate Raised() {
      SourceMissing? || NoOverwriteAnswer? || NoAnswer?
    }
  }

  /** The first `n` answers all decline the move question. */
  ghost predicate DeclinedAll(answers: seq<string>, n: nat) {
    n <= |answers| && forall j :: 0 <= j < n ==> !ConfirmMove(answers[j])
  }

  /** Candidate `index` is the first one accepted. */
  ghost predicate FirstAccepted(yes: bool, answers: seq<string>, index: nat) {
    if yes then index == 0
    else index < |answers| && ConfirmMove(answers[index]) && DeclinedAll(answers, index)
  }

  /** How many answers the move questions consume up to and including the acceptance of candidate `index`. */
  function MoveAnswers(yes: bool, index: nat): nat {
    if yes then 0 else index + 1
  }

  /**
   * The loop `for match, score in matches` of `main`, for one input file:
   * offers each match in order, moves the file to the first one accepted and
   * stops there whether or not the move happened.
   */
  method OfferMatches(fs: FileSystem, yes: bool, source: Path, name: string,
                      matches: seq<Placement>, answers: seq<string>)
    returns (outcome: Offer, used: nat)
    modifies fs
    ensures used <= |answers|
    // every match declined: the else branch runs
    ensures outcome.Exhausted? <==> if yes then matches == [] else DeclinedAll(answers, |matches|)
    ensures outcome.Exhausted? ==> used == (if yes then 0 else |matches|)
    ensures outcome.NoAnswer? <==> !yes && |answers| < |matches| && DeclinedAll(answers, |answers|)
    ensures outcome.NoAnswer? ==> used == |answers|
    // the accepted candidate is the first one accepted
    ensures outcome.Accepted() ==>
              && outcome.index < |matches|
              && FirstAccepted(yes, answers, outcome.index)
              && outcome.dest == Join(matches[outcome.index].dir, name)
    // the overwrite question is asked exactly when the destination exists
    ensures outcome.Accepted() && outcome.dest !in old(fs.files) ==>
              used == MoveAnswers(yes, outcome.index) && (outcome.Moved? || outcome.SourceMissing?)
    ensures outcome.Accepted() && outcome.dest in old(fs.files) ==>
              var asked := MoveAnswers(yes, outcome.index);
              if asked == |answers| then outcome.NoOverwriteAnswer? && used == asked
              else used == asked + 1 &&
                   if OverwriteDeclined(answers[asked]) then outcome.Kept? else outcome.Moved? || outcome.SourceMissing?
    ensures outcome.SourceMissing? ==> source !in old(fs.files)
    // a move writes the source's bytes, then unlinks the source
    ensures outcome.Moved? ==>
              && source in old(fs.files)
              && fs.files == AfterMove(old(fs.files), source, outcome.dest)
              && fs.trace == old(fs.trace) + [Wrote(outcome.dest, old(fs.files)[source]), Unlinked(source)]
    ensures !outcome.Moved? ==> fs.files == old(fs.files) && fs.trace == old(fs.trace)
  {
    used := 0;
    var i := 0;
    while i < |matches|
      invariant 0 <= i <= |matches|
      invariant yes ==> i == 0 && used == 0
      invariant !yes ==> used == i && DeclinedAll(answers, i)
      invariant fs.files == old(fs.files) && fs.trace == old(fs.trace)
    {
      var accept: bool;
      if yes {
        accept := true;
      } else {
        if used == |answers| {
          outcome := NoAnswer;
          return;
        }
        accept := ConfirmMove(answers[used]);
        used := used + 1;
      }
      if accept {
        var dest := Join(matches[i].dir, name);
        var overwrite := true;
        var present := fs.Exists(dest);
        if present {
          if used == |answers| {
            outcome := NoOverwriteAnswer(i, dest);
            return;
          }
          overwrite := !OverwriteDeclined(answers[used]);
          used := used + 1;
        }
        if overwrite {
          var data := fs.ReadBytes(source);
          if data.None? {
            outcome := SourceMissing(i, dest);
            return;
          }
          fs.WriteBytes(dest, data.value);
          assert fs.files == AfterCopy(old(fs.files), source, dest);
          fs.Unlink(source);
          outcome := Moved(i, dest);
        } else {
          outcome := Kept(i, dest);
        }
        return;
      }
      i := i + 1;
    }
    outcome := Exhausted;
  }

  // ---------------------------------------------------------------------------
  // The run over all input files
  // ---------------------------------------------------------------------------

  /**
   * One input file as `main` sees it: its path, its name, the directories
   * found under the output root and what `process.extract` returned for its stem.
   */
  datatype FileJob = FileJob(source: Path, name: string, dirs: seq<Path>, extracted: seq<Scored>)

  /** How the whole run ends. */
  datatype RunEnd =
    | NoFilesFound        // the glob matched nothing: message and return
    | Finished            // every file went through the offering loop
    | Exited(status: int) // some file had no match: `exit(1)` ends the process
    | Raised              // an input() or read_bytes() call raised

  /** How many of the reported offers moved their file. */
  function CountMoved(reports: seq<Offer>): (n: nat)
    ensures n <= |reports|
  {
    if reports == [] then 0
    else CountMoved(reports[..|reports| - 1]) + (if reports[|reports| - 1].Moved? then 1 else 0)
  }

  /** The count is zero exactly when no reported offer moved its file. */
  lemma {:induction false} NoMoveCountsZero(reports: seq<Offer>)
    ensures CountMoved(reports) == 0 <==> forall k :: 0 <= k < |reports| ==> !reports[k].Moved?
    decreases |reports|
  {
    if reports != [] {
      var init := reports[..|reports| - 1];
      NoMoveCountsZero(init);
      assert forall k :: 0 <= k < |init| ==> init[k] == reports[k];
    }
  }

  /** Reporting one more offer adds one to the count exactly when it moved its file. */
  lemma CountMovedAppend(reports: seq<Offer>, o: Offer)
    ensures CountMoved(reports + [o]) == CountMoved(reports) + (if o.Moved? then 1 else 0)
  {
    assert (reports + [o])[..|reports|] == reports;
  }

  /**
   * The body of the loop over input files, for one file: find its matches,
   * then offer them. `None` stands for `exit(1)` inside `find_closest_directories`.
   */
  method ProcessFile(fs: FileSystem, yes: bool, job: FileJob, answers: seq<string>)
    returns (offer: Option<Offer>, used: nat)
    modifies fs
    ensures offer.None? <==> !HasCloseMatch(job.dirs, job.extracted)
    ensures used <= |answers|
    ensures offer.Some? ==> |fs.trace| == |old(fs.trace)| + (if offer.value.Moved? then 2 else 0)
    ensures offer.None? || !offer.value.Moved? ==> fs.files == old(fs.files) && fs.trace == old(fs.trace)
  {
    var closest := FindClosestDirectories(job.dirs, job.extracted, 80);
    if closest.Exit? {
      return None, 0;
    }
    var outcome;
    outcome, used := OfferMatches(fs, yes, job.source, job.name, closest.placements, answers);
    offer := Some(outcome);
  }

  /**
   * The loop `for i, input_file in enumerate(input_files)` of `main`: matches
   * each file in turn and offers its matches; the first file without a match
   * ends the whole run, and so does an exception.
   */
  method MoveFiles(fs: FileSystem, yes: bool, jobs: seq<FileJob>, answers: seq<string>)
    returns (end: RunEnd, reports: seq<Offer>)
    modifies fs
    ensures end.NoFilesFound? <==> jobs == []
    ensures |reports| <= |jobs|
    ensures forall k :: 0 <= k < |reports| ==> HasCloseMatch(jobs[k].dirs, jobs[k].extracted)
    ensures forall k :: 0 <= k < |reports| && reports[k].Raised() ==> end.Raised? && k == |reports| - 1
    ensures end.Raised? ==> reports != [] && reports[|reports| - 1].Raised()
    ensures end.Exited? ==> end.status == 1 && |reports| < |jobs| && !HasCloseMatch(jobs[|reports|].dirs, jobs[|reports|].extracted)
    ensures end.Finished? ==> |reports| == |jobs|
    ensures |fs.trace| == |old(fs.trace)| + 2 * CountMoved(reports)
    ensures CountMoved(reports) == 0 ==> fs.files == old(fs.files)
  {
    reports := [];
    if jobs == [] {
      end := NoFilesFound;
      return;
    }
    var remaining := answers;
    var i := 0;
    end := Finished;
    while i < |jobs| && end.Finished?
      invariant 0 <= i <= |jobs| && |reports| == i
      invariant end.Finished? || end.Exited? || end.Raised?
      invariant forall k :: 0 <= k < i ==> HasCloseMatch(jobs[k].dirs, jobs[k].extracted)
      invariant forall k :: 0 <= k < i && reports[k].Raised() ==> end.Raised? && k == i - 1
      invariant end.Raised? ==> i > 0 && reports[i - 1].Raised()
      invariant end.Exited? ==> end.status == 1 && i < |jobs| && !HasCloseMatch(jobs[i].dirs, jobs[i].extracted)
      invariant |fs.trace| == |old(fs.trace)| + 2 * CountMoved(reports)
      invariant CountMoved(reports) == 0 ==> fs.files == old(fs.files)
      decreases |jobs| - i, if end.Finished? then 1 else 0
    {
      var offer, used := ProcessFile(fs, yes, jobs[i], remaining);
      if offer.None? {
        end := Exited(1);
      } else {
        remaining := remaining[used..];
        CountMovedAppend(reports, offer.value);
        reports := reports + [offer.value];
        i := i + 1;
        if offer.value.Raised() {
          end := Raised;
        }
      }
    }
  }
}
