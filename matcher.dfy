/**
 * The matcher of fuzzy_mover: `find_closest_directories` in file_fuzzy.py.
 *
 * The fuzzy-scoring library call (`process.extract`) is not modelled: its
 * ranked list of (label, score) pairs is an input of the model. What remains is
 * the filter on the score and the re-association of each surviving label with
 * every directory whose path contains it, deduplicated on (directory, score).
 */
module Matcher {

  /** A directory's identity, in its string form (`str(dir)`). */
  type Path = string

  /** One element of the list `process.extract` returns: a directory base name and its score. */
  datatype Scored = Scored(name: string, score: int)

  /** One element of the result: a directory and the score it inherited. */
  datatype Placement = Placement(dir: Path, score: int)

  /** What `find_closest_directories` does: return a non-empty list, or end the process. */
  datatype Closest = Matches(placements: seq<Placement>) | Exit(status: int)

  // ---------------------------------------------------------------------------
  // Substring test: Python's `needle in hay` on strings
  // ---------------------------------------------------------------------------

  /** `needle` occurs in `hay` starting at index `i`. */
  ghost predicate OccursAt(needle: string, hay: string, i: int) {
    0 <= i && i + |needle| <= |hay| && hay[i..i + |needle|] == needle
  }

  /** Python's `needle in hay`: true when `needle` is a substring of `hay`. */
  function Contains(hay: string, needle: string): (found: bool)
    ensures needle <= hay ==> found
    ensures found ==> |needle| <= |hay|
    decreases |hay|
  {
    if needle <= hay then true
    else if hay == [] then false
    else Contains(hay[1..], needle)
  }

  /**
   * `Contains` is the substring test. Labels are names of directories found on
   * disk, so they are never empty and never match every path by themselves.
   */
  lemma {:induction false} ContainsIffOccurs(hay: string, needle: string)
    ensures Contains(hay, needle) <==> exists i :: OccursAt(needle, hay, i)
    decreases |hay|
  {
    if needle <= hay {
      assert OccursAt(needle, hay, 0);
    } else if hay != [] {
      var tail := hay[1..];
      ContainsIffOccurs(tail, needle);
      forall i | 1 <= i ensures OccursAt(needle, hay, i) <==> OccursAt(needle, tail, i - 1) {
        if i + |needle| <= |hay| {
          var here, there := hay[i..i + |needle|], tail[i - 1..i - 1 + |needle|];
          forall k | 0 <= k < |needle| ensures here[k] == there[k] {
            assert here[k] == hay[i + k] && there[k] == tail[i - 1 + k];
          }
          assert here == there;
        }
      }
      if Contains(tail, needle) {
        var i :| OccursAt(needle, tail, i);
        assert OccursAt(needle, hay, i + 1);
      }
    }
  }

  // ---------------------------------------------------------------------------
  // The score filter (the list comprehension on `matches`)
  // ---------------------------------------------------------------------------

  /** The extracted pairs whose score is at least `threshold`, in their original order. */
  function AboveThreshold(matches: seq<Scored>, threshold: int): (kept: seq<Scored>)
    ensures forall m :: m in kept <==> m in matches && m.score >= threshold
    ensures |kept| <= |matches|
    ensures (forall m :: m in matches ==> m.score >= threshold) ==> kept == matches
  {
    if matches == [] then []
    else
      var rest := AboveThreshold(matches[1..], threshold);
      assert matches == [matches[0]] + matches[1..];
      if matches[0].score >= threshold then [matches[0]] + rest else rest
  }

  /**
   * The filter distributes over concatenation; with its one-element case (the
   * pair is kept alone or dropped) this fixes the kept list: the passing pairs,
   * each as often as in the input, in their original order.
   */
  lemma {:induction false} AboveThresholdAppend(a: seq<Scored>, b: seq<Scored>, threshold: int)
    ensures AboveThreshold(a + b, threshold) == AboveThreshold(a, threshold) + AboveThreshold(b, threshold)
    ensures |b| == 1 ==> AboveThreshold(b, threshold) == if b[0].score >= threshold then b else []
    decreases |a|
  {
    if a == [] {
      assert a + b == b;
    } else {
      assert (a + b)[1..] == a[1..] + b;
      AboveThresholdAppend(a[1..], b, threshold);
    }
  }

  /** Scores never increase along the list (how `process.extract` ranks). */
  ghost predicate ScoresDescending(matches: seq<Scored>) {
    forall i, j :: 0 <= i < j < |matches| ==> matches[i].score >= matches[j].score
  }

  lemma {:induction false} AboveThresholdKeepsRanking(matches: seq<Scored>, threshold: int)
    requires ScoresDescending(matches)
    ensures ScoresDescending(AboveThreshold(matches, threshold))
    decreases |matches|
  {
    if matches != [] {
      var rest := AboveThreshold(matches[1..], threshold);
      AboveThresholdKeepsRanking(matches[1..], threshold);
      if matches[0].score >= threshold {
        var kept := [matches[0]] + rest;
        forall i, j | 0 <= i < j < |kept| ensures kept[i].score >= kept[j].score {
          if i == 0 {
            assert kept[j] in rest;
            assert kept[j] in matches[1..];
          }
        }
      }
    }
  }

  /**
   * Because the threshold is reassigned to 0, the filter drops only
   * negative scores; with every score in the library's range 0..100 it keeps
   * the whole extracted list, whatever threshold the caller asked for.
   */
  lemma ZeroThresholdKeepsLibraryScores(matches: seq<Scored>)
    requires forall m :: m in matches ==> 0 <= m.score <= 100
    ensures AboveThreshold(matches, 0) == matches
  {
  }

  // ---------------------------------------------------------------------------
  // Deduplication by "append unless already present"
  // ---------------------------------------------------------------------------

  ghost predicate NoDuplicates(s: seq<Placement>) {
    forall i, j :: 0 <= i < j < |s| ==> s[i] != s[j]
  }

  /** One step of the inner loop: append `x` unless the list already holds it. */
  function Remember(acc: seq<Placement>, x: Placement): (r: seq<Placement>)
    ensures x in r
    ensures forall y :: y in r <==> y in acc || y == x
    ensures NoDuplicates(acc) ==> NoDuplicates(r)
    ensures acc <= r
  {
    if x in acc then acc else acc + [x]
  }

  /** Appends the elements of `s` to `acc` in order, skipping every element already held. */
  function DedupOnto(acc: seq<Placement>, s: seq<Placement>): (r: seq<Placement>)
    ensures forall y :: y in r <==> y in acc || y in s
    ensures NoDuplicates(acc) ==> NoDuplicates(r)
    ensures acc <= r
    decreases |s|
  {
    if s == [] then acc
    else
      var init := s[..|s| - 1];
      assert s == init + [s[|s| - 1]];
      Remember(DedupOnto(acc, init), s[|s| - 1])
  }

  /** The first occurrence of every element of `s`, in the order of those occurrences. */
  function Dedup(s: seq<Placement>): (r: seq<Placement>)
    ensures forall y :: y in r <==> y in s
    ensures NoDuplicates(r)
  {
    DedupOnto([], s)
  }

  lemma {:induction false} DedupOntoAppend(acc: seq<Placement>, a: seq<Placement>, b: seq<Placement>)
    ensures DedupOnto(acc, a + b) == DedupOnto(DedupOnto(acc, a), b)
    decreases |b|
  {
    if b == [] {
      assert a + b == a;
    } else {
      var binit := b[..|b| - 1];
      assert (a + b)[..|a + b| - 1] == a + binit;
      DedupOntoAppend(acc, a, binit);
    }
  }

  lemma DedupOntoStep(acc: seq<Placement>, s: seq<Placement>, extra: seq<Placement>)
    requires |extra| <= 1
    ensures DedupOnto(acc, s + extra) ==
              if extra == [] then DedupOnto(acc, s) else Remember(DedupOnto(acc, s), extra[0])
  {
    if extra == [] {
      assert s + extra == s;
    } else {
      assert (s + extra)[..|s + extra| - 1] == s;
    }
  }

  /** The index of the first occurrence of `x` in `s`. */
  function FirstIndex(s: seq<Placement>, x: Placement): (i: nat)
    requires x in s
    ensures i < |s| && s[i] == x && x !in s[..i]
  {
    if s[0] == x then 0
    else
      assert s == [s[0]] + s[1..];
      var k := FirstIndex(s[1..], x);
      assert s[..k + 1] == [s[0]] + s[1..][..k];
      k + 1
  }

  lemma FirstIndexOfPrefix(s: seq<Placement>, x: Placement, n: nat)
    requires n <= |s| && x in s[..n]
    ensures x in s && FirstIndex(s, x) == FirstIndex(s[..n], x)
  {
    var i := FirstIndex(s[..n], x);
    assert s[..n][..i] == s[..i];
    assert s[i] == x && x !in s[..i];
  }

  /**
   * Deduplication keeps first occurrences in their original order: an element
   * that comes earlier in the result was first seen earlier in the input.
   */
  lemma {:induction false} DedupKeepsDiscoveryOrder(s: seq<Placement>)
    ensures forall i, j :: 0 <= i < j < |Dedup(s)| ==>
              Dedup(s)[i] in s && Dedup(s)[j] in s &&
              FirstIndex(s, Dedup(s)[i]) < FirstIndex(s, Dedup(s)[j])
    decreases |s|
  {
    var r := Dedup(s);
    if s != [] {
      var n := |s| - 1;
      var init := s[..n];
      var x := s[n];
      assert s == init + [x];
      var r0 := Dedup(init);
      assert r == Remember(r0, x);
      DedupKeepsDiscoveryOrder(init);
      forall y | y in r0 ensures y in s && FirstIndex(s, y) == FirstIndex(init, y) {
        FirstIndexOfPrefix(s, y, n);
      }
      forall i, j | 0 <= i < j < |r|
        ensures r[i] in s && r[j] in s && FirstIndex(s, r[i]) < FirstIndex(s, r[j])
      {
        assert r[i] in r && r[j] in r;
        if j < |r0| {
          assert r[i] == r0[i] && r[j] == r0[j];
          assert r0[i] in r0 && r0[j] in r0;
        } else {
          assert x !in r0 && r[j] == x;
          assert r[i] == r0[i] && r0[i] in r0;
          assert x !in init;
          assert FirstIndex(s, x) == n;
        }
      }
    }
  }

  // ---------------------------------------------------------------------------
  // Re-association of labels with directories (the two nested loops)
  // ---------------------------------------------------------------------------

  /** The extracted pair `m` vouches for placing `p.dir` at `p.score`: same score, label inside the path. */
  predicate Supports(m: Scored, p: Placement) {
    p.score == m.score && Contains(p.dir, m.name)
  }

  /** The placements one extracted pair produces, in directory order (one pass of the inner loop). */
  function Group(m: Scored, dirs: seq<Path>): (g: seq<Placement>)
    ensures forall p :: p in g <==> p.dir in dirs && Supports(m, p)
    decreases |dirs|
  {
    if dirs == [] then []
    else
      var init := dirs[..|dirs| - 1];
      var d := dirs[|dirs| - 1];
      assert dirs == init + [d];
      if Contains(d, m.name) then Group(m, init) + [Placement(d, m.score)] else Group(m, init)
  }

  /** Every placement the nested loops consider, duplicates included, in loop order. */
  function Candidates(kept: seq<Scored>, dirs: seq<Path>): (c: seq<Placement>)
    ensures forall p :: p in c <==> p.dir in dirs && exists m :: m in kept && Supports(m, p)
    decreases |kept|
  {
    if kept == [] then []
    else
      var init := kept[..|kept| - 1];
      var m := kept[|kept| - 1];
      assert kept == init + [m];
      Candidates(init, dirs) + Group(m, dirs)
  }

  lemma GroupStep(m: Scored, dirs: seq<Path>, j: nat)
    requires j < |dirs|
    ensures Group(m, dirs[..j + 1]) ==
              Group(m, dirs[..j]) + if Contains(dirs[j], m.name) then [Placement(dirs[j], m.score)] else []
  {
    assert dirs[..j + 1][..j] == dirs[..j];
  }

  lemma CandidatesStep(kept: seq<Scored>, dirs: seq<Path>, i: nat)
    requires i < |kept|
    ensures Candidates(kept[..i + 1], dirs) == Candidates(kept[..i], dirs) + Group(kept[i], dirs)
  {
    assert kept[..i + 1][..i] == kept[..i];
  }

  /**
   * The list the nested loops build: every (directory, score) pair that some
   * kept label supports, each pair once, in the order the loops first meet it.
   */
  function Reassociation(kept: seq<Scored>, dirs: seq<Path>): (r: seq<Placement>)
    ensures forall p :: p in r <==> p.dir in dirs && exists m :: m in kept && Supports(m, p)
    ensures NoDuplicates(r)
  {
    Dedup(Candidates(kept, dirs))
  }

  /** Placements in the result never increase in score along the list. */
  ghost predicate PlacementsDescending(ps: seq<Placement>) {
    forall i, j :: 0 <= i < j < |ps| ==> ps[i].score >= ps[j].score
  }

  lemma {:induction false} CandidatesKeepRanking(kept: seq<Scored>, dirs: seq<Path>)
    requires ScoresDescending(kept)
    ensures PlacementsDescending(Candidates(kept, dirs))
    decreases |kept|
  {
    if kept != [] {
      var init := kept[..|kept| - 1];
      var m := kept[|kept| - 1];
      CandidatesKeepRanking(init, dirs);
      var c0 := Candidates(init, dirs);
      var g := Group(m, dirs);
      var c := c0 + g;
      // earlier groups score at least as high as the last one, which is flat
      forall p | p in c0 ensures p.score >= m.score {
        var mi :| mi in init && Supports(mi, p);
        var k :| 0 <= k < |init| && init[k] == mi;
        assert kept[k] == mi;
      }
      forall i, j | 0 <= i < j < |c| ensures c[i].score >= c[j].score {
        if j < |c0| {
          assert c[i] == c0[i] && c[j] == c0[j];
        } else if i < |c0| {
          assert c[i] == c0[i] && c[j] == g[j - |c0|];
        } else {
          assert c[i] == g[i - |c0|] && c[j] == g[j - |c0|];
        }
      }
    }
  }

  lemma {:induction false} DedupOntoKeepsRanking(acc: seq<Placement>, s: seq<Placement>)
    requires PlacementsDescending(acc + s)
    ensures PlacementsDescending(DedupOnto(acc, s))
    decreases |s|
  {
    if s == [] {
      assert acc + s == acc;
    } else {
      var init := s[..|s| - 1];
      var x := s[|s| - 1];
      assert acc + s == (acc + init) + [x];
      assert PlacementsDescending(acc + init) by {
        forall i, j | 0 <= i < j < |acc + init|
          ensures (acc + init)[i].score >= (acc + init)[j].score
        {
          assert (acc + init)[i] == (acc + s)[i] && (acc + init)[j] == (acc + s)[j];
        }
      }
      DedupOntoKeepsRanking(acc, init);
      var r0 := DedupOnto(acc, init);
      if x !in r0 {
        var r := r0 + [x];
        forall i, j | 0 <= i < j < |r| ensures r[i].score >= r[j].score {
          if j == |r0| {
            assert r[i] == r0[i] && r0[i] in r0;
            assert r0[i] in acc + init;
            var k :| 0 <= k < |acc + init| && (acc + init)[k] == r0[i];
            assert (acc + s)[k] == r0[i] && (acc + s)[|acc + s| - 1] == x;
          }
        }
      }
    }
  }

  /** When the pairs the loops go through are ranked by non-increasing score, so is the result. */
  lemma ReassociationKeepsRanking(kept: seq<Scored>, dirs: seq<Path>)
    requires ScoresDescending(kept)
    ensures PlacementsDescending(Reassociation(kept, dirs))
  {
    CandidatesKeepRanking(kept, dirs);
    assert [] + Candidates(kept, dirs) == Candidates(kept, dirs);
    DedupOntoKeepsRanking([], Candidates(kept, dirs));
  }

  /**
   * The whole of `find_closest_directories`: when `process.extract` ranks its
   * pairs by non-increasing score, the returned list is ranked the same way.
   */
  lemma ClosestKeepsRanking(dirs: seq<Path>, extracted: seq<Scored>)
    requires ScoresDescending(extracted)
    ensures PlacementsDescending(Reassociation(AboveThreshold(extracted, 0), dirs))
  {
    AboveThresholdKeepsRanking(extracted, 0);
    ReassociationKeepsRanking(AboveThreshold(extracted, 0), dirs);
  }

  /**
   * The result lists each pair where the loops first produced it: groups in
   * the order of the extracted list, directories in key order inside a group.
   */
  lemma ReassociationKeepsDiscoveryOrder(kept: seq<Scored>, dirs: seq<Path>)
    ensures var c := Candidates(kept, dirs);
            var r := Reassociation(kept, dirs);
            forall i, j :: 0 <= i < j < |r| ==>
              r[i] in c && r[j] in c && FirstIndex(c, r[i]) < FirstIndex(c, r[j])
  {
    DedupKeepsDiscoveryOrder(Candidates(kept, dirs));
  }

  /**
   * Some extracted pair with a non-negative score has its label inside some
   * directory path: exactly when `find_closest_directories` returns.
   */
  ghost predicate HasCloseMatch(dirs: seq<Path>, extracted: seq<Scored>) {
    exists m, d :: m in extracted && m.score >= 0 && d in dirs && Contains(d, m.name)
  }

  /**
   * Soundness and completeness of `find_closest_directories` against the
   * extracted list itself: a (directory, score) pair is in the result exactly
   * when the directory is a key and some extracted pair with that score, not
   * below the (overwritten) threshold 0, has its label inside the directory's
   * path; and the result is empty exactly when there is no such pair.
   */
  lemma ClosestAgainstExtract(dirs: seq<Path>, extracted: seq<Scored>)
    ensures var r := Reassociation(AboveThreshold(extracted, 0), dirs);
      && (forall p :: p in r <==> p.dir in dirs && exists m :: m in extracted && m.score >= 0 && Supports(m, p))
      && (r == [] <==> !HasCloseMatch(dirs, extracted))
  {
    var kept := AboveThreshold(extracted, 0);
    var r := Reassociation(kept, dirs);
    forall p ensures p in r <==> p.dir in dirs && exists m :: m in extracted && m.score >= 0 && Supports(m, p) {
      if p.dir in dirs && exists m :: m in extracted && m.score >= 0 && Supports(m, p) {
        var m :| m in extracted && m.score >= 0 && Supports(m, p);
        assert m in kept;
      }
    }
    if HasCloseMatch(dirs, extracted) {
      var m, d :| m in extracted && m.score >= 0 && d in dirs && Contains(d, m.name);
      assert Supports(m, Placement(d, m.score));
      assert Placement(d, m.score) in r;
    }
    if r != [] {
      var p := r[0];
      assert p in r;
      var m :| m in kept && Supports(m, p);
      assert m in extracted && m.score >= 0 && p.dir in dirs && Contains(p.dir, m.name);
    }
  }

  /**
   * `find_closest_directories`. The `threshold` argument is overwritten with 0
   * before use, so it has no effect on the result.
   */
  method FindClosestDirectories(dirs: seq<Path>, extracted: seq<Scored>, threshold: int)
    returns (result: Closest)
    ensures result.Exit? <==> !HasCloseMatch(dirs, extracted)
    ensures result.Exit? ==> result.status == 1
    ensures result.Matches? ==> result.placements != []
    ensures result.Matches? ==> result.placements == Reassociation(AboveThreshold(extracted, 0), dirs)
    ensures result.Matches? ==>
              forall p :: p in result.placements <==>
                p.dir in dirs && exists m :: m in extracted && m.score >= 0 && Supports(m, p)
  {
    var kept := AboveThreshold(extracted, 0);
    var found: seq<Placement> := [];
    var i := 0;
    while i < |kept|
      invariant 0 <= i <= |kept|
      invariant found == Dedup(Candidates(kept[..i], dirs))
    {
      var m := kept[i];
      ghost var before := found;
      var j := 0;
      while j < |dirs|
        invariant 0 <= j <= |dirs|
        invariant found == DedupOnto(before, Group(m, dirs[..j]))
      {
        var dir := dirs[j];
        var p := Placement(dir, m.score);
        GroupStep(m, dirs, j);
        DedupOntoStep(before, Group(m, dirs[..j]), if Contains(dir, m.name) then [p] else []);
        if Contains(dir, m.name) && p !in found {
          found := found + [p];
        }
        j := j + 1;
      }
      assert dirs[..j] == dirs;
      CandidatesStep(kept, dirs, i);
      DedupOntoAppend([], Candidates(kept[..i], dirs), Group(m, dirs));
      i := i + 1;
    }
    assert kept[..i] == kept;
    ClosestAgainstExtract(dirs, extracted);
    if found != [] {
      result := Matches(found);
    } else {
      result := Exit(1);
    }
  }
}
