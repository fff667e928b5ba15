/** The subject search shared by `fmriprep_pbs.py` (lines 37-52) and
    `fmriprep_slurm.py` (lines 34-49): a top-down walk of the BIDS
    directory that collects the directories named `sub-*`, never descends
    into one, and keeps those the include and exclude lists let through. */
module Subjects {
  import opened Wrappers
  import opened Strings
  import opened Lists
  import opened Paths
  import opened Failures
  import opened BidsNames

  /** A directory and the directories inside it, in listing order. */
  datatype Dir = Dir(name: string, children: seq<Dir>)

  function Size(d: Dir): nat
    decreases d
  {
    1 + SizeAll(d.children)
  }

  function SizeAll(ds: seq<Dir>): (n: nat)
    ensures forall i :: 0 <= i < |ds| ==> Size(ds[i]) <= n
    decreases ds
  {
    if ds == [] then 0 else Size(ds[0]) + SizeAll(ds[1..])
  }

  /** A directory `name` met while walking the directory `root`. */
  datatype Candidate = Candidate(root: Path, name: string)

  predicate IsSubjectDir(name: string) {
    IsPrefix(SubjectToken, name)
  }

  /** The `sub-*` directories among the ones listed in `root` (lines 41-42). */
  function Here(root: Path, ds: seq<Dir>): (r: seq<Candidate>)
    ensures forall c :: c in r <==> exists i :: 0 <= i < |ds| && IsSubjectDir(ds[i].name) && c == Candidate(root, ds[i].name)
    decreases |ds|
  {
    if ds == [] then []
    else
      var rest := Here(root, ds[1..]);
      assert forall i :: 1 <= i < |ds| ==> ds[i] == ds[1..][i - 1];
      (if IsSubjectDir(ds[0].name) then [Candidate(root, ds[0].name)] else []) + rest
  }

  /** `os.walk(root, topdown=True)` with the pruning of line 49: the
      candidates of `root` itself, then those of each directory that is
      not a subject directory, in listing order. */
  function Walk(root: Path, ds: seq<Dir>): seq<Candidate>
    decreases SizeAll(ds), 1
  {
    Here(root, ds) + Below(root, ds)
  }

  function Below(root: Path, ds: seq<Dir>): seq<Candidate>
    decreases SizeAll(ds), 0
  {
    if ds == [] then []
    else
      (if IsSubjectDir(ds[0].name) then [] else Walk(Join(root, ds[0].name), ds[0].children))
      + Below(root, ds[1..])
  }

  /** The walk described without its order: a candidate is a `sub-*`
      directory listed in `root`, or one reached through a directory of
      `root` that is not itself a subject directory. */
  ghost predicate Reaches(root: Path, ds: seq<Dir>, c: Candidate)
    decreases SizeAll(ds)
  {
    exists i :: 0 <= i < |ds| &&
      if IsSubjectDir(ds[i].name) then c == Candidate(root, ds[i].name)
      else Reaches(Join(root, ds[i].name), ds[i].children, c)
  }

  lemma {:induction false} WalkReaches(root: Path, ds: seq<Dir>, c: Candidate)
    ensures c in Walk(root, ds) <==> Reaches(root, ds, c)
    decreases SizeAll(ds), 1
  {
    BelowReaches(root, ds, c);
  }

  lemma {:induction false} BelowReaches(root: Path, ds: seq<Dir>, c: Candidate)
    ensures c in Below(root, ds) <==>
      exists i :: 0 <= i < |ds| && !IsSubjectDir(ds[i].name) && Reaches(Join(root, ds[i].name), ds[i].children, c)
    decreases SizeAll(ds), 0
  {
    if ds != [] {
      var d := ds[0];
      var first := if IsSubjectDir(d.name) then [] else Walk(Join(root, d.name), d.children);
      assert Below(root, ds) == first + Below(root, ds[1..]);
      BelowReaches(root, ds[1..], c);
      if !IsSubjectDir(d.name) {
        WalkReaches(Join(root, d.name), d.children, c);
      }
      assert forall i :: 1 <= i < |ds| ==> ds[i] == ds[1..][i - 1];
      if exists i :: 0 <= i < |ds| && !IsSubjectDir(ds[i].name) && Reaches(Join(root, ds[i].name), ds[i].children, c) {
        var i :| 0 <= i < |ds| && !IsSubjectDir(ds[i].name) && Reaches(Join(root, ds[i].name), ds[i].children, c);
        if i > 0 {
          assert ds[1..][i - 1] == ds[i];
        }
      }
    }
  }

  /** Every candidate of the walk is a `sub-*` directory. */
  lemma {:induction false} WalkFindsSubjectDirs(root: Path, ds: seq<Dir>, c: Candidate)
    requires c in Walk(root, ds)
    ensures IsSubjectDir(c.name)
    decreases SizeAll(ds)
  {
    WalkReaches(root, ds, c);
    ReachedIsSubjectDir(root, ds, c);
  }

  lemma {:induction false} ReachedIsSubjectDir(root: Path, ds: seq<Dir>, c: Candidate)
    requires Reaches(root, ds, c)
    ensures IsSubjectDir(c.name)
    decreases SizeAll(ds)
  {
    var i :| 0 <= i < |ds| &&
      if IsSubjectDir(ds[i].name) then c == Candidate(root, ds[i].name)
      else Reaches(Join(root, ds[i].name), ds[i].children, c);
    if !IsSubjectDir(ds[i].name) {
      ReachedIsSubjectDir(Join(root, ds[i].name), ds[i].children, c);
    }
  }

  // ---------------------------------------------------------------------
  // The include and exclude tests of lines 44-45.

  /** No include list, or the name is on it with or without `sub-`. */
  predicate Included(includes: Option<seq<string>>, name: string) {
    includes.None? || name in includes.value || StripSub(name) in includes.value
  }

  /** `exclude is None or (dir not in exclude and dir not in exclude not in
      exclude)`: the chained comparison reads as `dir not in exclude and
      exclude not in exclude`, and a list of strings never holds itself,
      so only the raw name is compared. */
  predicate NotExcludedAsWritten(excludes: Option<seq<string>>, name: string) {
    excludes.None? || name !in excludes.value
  }

  /** The exclude test mirroring the include test: neither the raw nor the
      stripped name may be listed. */
  predicate NotExcluded(excludes: Option<seq<string>>, name: string) {
    excludes.None? || (name !in excludes.value && StripSub(name) !in excludes.value)
  }

  /** The subject a bare label names slips through the exclude test as
      written, while the include test accepts the same bare label. */
  lemma BareLabelNotExcluded(id: string)
    requires !Contains(id, SubjectToken)
    ensures Included(Some([id]), SubjectToken + id)
    ensures NotExcludedAsWritten(Some([id]), SubjectToken + id)
    ensures !NotExcluded(Some([id]), SubjectToken + id)
  {
    ReplaceLeading(SubjectToken, id, "");
    ReplaceAbsent(id, SubjectToken, "");
    assert StripSub(SubjectToken + id) == id;
    assert |SubjectToken + id| != |id|;
  }

  // ---------------------------------------------------------------------
  // Lines 37-52.

  /** The id stored for a candidate (line 46). */
  function IdOf(c: Candidate): string {
    StripSub(c.name)
  }

  /** The path stored for a candidate (line 47). */
  function PathOf(c: Candidate): Path {
    Join(c.root, c.name)
  }

  /** The aligned lists `sub` and `sub_dir`. */
  datatype Found = Found(ids: seq<string>, dirs: seq<Path>)

  /** Entry `i` of the lists is the one stored for candidate `c`. */
  predicate EntryOf(f: Found, i: int, c: Candidate) {
    0 <= i < |f.ids| && i < |f.dirs| && f.ids[i] == IdOf(c) && f.dirs[i] == PathOf(c)
  }

  /** Entry `i` was stored for some candidate of `cs` that `keep` lets through. */
  ghost predicate KeptEntry(f: Found, i: int, cs: seq<Candidate>, keep: Candidate -> bool) {
    exists c :: c in cs && keep(c) && EntryOf(f, i, c)
  }

  /** Keeps the candidates `keep` lets through, and turns them into ids and
      paths; no candidate at all is the exit of line 85. */
  function Select(bidsDir: Path, cs: seq<Candidate>, keep: Candidate -> bool): (r: Result<Found, Failure>)
    ensures r.Err? <==> forall c :: c in cs ==> !keep(c)
    ensures r.Err? ==> r.error == NoSubjectDirs("No sub- dirs found in " + bidsDir)
    ensures r.Ok? ==> |r.value.ids| == |r.value.dirs| > 0
    ensures r.Ok? ==> forall i :: 0 <= i < |r.value.ids| ==> KeptEntry(r.value, i, cs, keep)
    ensures r.Ok? ==> forall c :: c in cs && keep(c) ==> PathOf(c) in r.value.dirs
  {
    var kept := Filter(cs, keep);
    NoneKept(cs, keep);
    if kept == [] then
      Err(NoSubjectDirs("No sub- dirs found in " + bidsDir))
    else
      var f := Found(Map(kept, IdOf), Map(kept, PathOf));
      EntriesAreKept(cs, keep, kept, f);
      KeptHaveEntries(cs, keep, kept, f);
      Ok(f)
  }

  lemma NoneKept(cs: seq<Candidate>, keep: Candidate -> bool)
    ensures Filter(cs, keep) == [] <==> forall c :: c in cs ==> !keep(c)
  {
    NoMemberEmpty(Filter(cs, keep));
  }

  lemma EntriesAreKept(cs: seq<Candidate>, keep: Candidate -> bool, kept: seq<Candidate>, f: Found)
    requires kept == Filter(cs, keep)
    requires f == Found(Map(kept, IdOf), Map(kept, PathOf))
    ensures |f.ids| == |f.dirs| == |kept|
    ensures forall i :: 0 <= i < |f.ids| ==> KeptEntry(f, i, cs, keep)
  {
    forall i | 0 <= i < |f.ids| ensures KeptEntry(f, i, cs, keep) {
      var c := kept[i];
      assert c in kept;
      assert EntryOf(f, i, c);
    }
  }

  lemma KeptHaveEntries(cs: seq<Candidate>, keep: Candidate -> bool, kept: seq<Candidate>, f: Found)
    requires kept == Filter(cs, keep)
    requires f == Found(Map(kept, IdOf), Map(kept, PathOf))
    ensures forall c :: c in cs && keep(c) ==> PathOf(c) in f.dirs
  {
    forall c | c in cs && keep(c) ensures PathOf(c) in f.dirs {
      assert c in kept;
      var i :| 0 <= i < |kept| && kept[i] == c;
      assert f.dirs[i] == PathOf(c);
    }
  }

  /** The test of lines 44-45 as written: the exclude list is matched
      against the raw directory name only. */
  function KeepAsWritten(includes: Option<seq<string>>, excludes: Option<seq<string>>): Candidate -> bool {
    (c: Candidate) => Included(includes, c.name) && NotExcludedAsWritten(excludes, c.name)
  }

  /** The test with the exclude list matched against the stripped name too. */
  function Keep(includes: Option<seq<string>>, excludes: Option<seq<string>>): Candidate -> bool {
    (c: Candidate) => Included(includes, c.name) && NotExcluded(excludes, c.name)
  }

  /** The search as written, with the raw-name exclude test. */
  function FindSubjectsAsWritten(bidsDir: Path, tree: seq<Dir>, includes: Option<seq<string>>, excludes: Option<seq<string>>): (r: Result<Found, Failure>)
    ensures r.Err? ==> r.error == NoSubjectDirs("No sub- dirs found in " + bidsDir)
  {
    Select(bidsDir, Walk(bidsDir, tree), KeepAsWritten(includes, excludes))
  }

  /** The search with the exclude test applied to the stripped name too. */
  function FindSubjects(bidsDir: Path, tree: seq<Dir>, includes: Option<seq<string>>, excludes: Option<seq<string>>): (r: Result<Found, Failure>)
    ensures r.Err? ==> r.error == NoSubjectDirs("No sub- dirs found in " + bidsDir)
  {
    Select(bidsDir, Walk(bidsDir, tree), Keep(includes, excludes))
  }

  /** A reachable `sub-*` directory the corrected tests let through. */
  ghost predicate Wanted(bidsDir: Path, tree: seq<Dir>, includes: Option<seq<string>>, excludes: Option<seq<string>>, c: Candidate) {
    Reaches(bidsDir, tree, c) && IsSubjectDir(c.name) && Included(includes, c.name) && NotExcluded(excludes, c.name)
  }

  /** Entry `i` was stored for a wanted directory. */
  ghost predicate WantedEntry(f: Found, i: int, bidsDir: Path, tree: seq<Dir>, includes: Option<seq<string>>, excludes: Option<seq<string>>) {
    exists c :: Wanted(bidsDir, tree, includes, excludes, c) && EntryOf(f, i, c)
  }

  /** What the search finds, stated over the reachable directories: each
      entry is a wanted directory, each wanted directory has an entry, ids
      and paths stay aligned, and the search fails exactly when nothing is
      wanted. */
  lemma FindSubjectsSpec(bidsDir: Path, tree: seq<Dir>, includes: Option<seq<string>>, excludes: Option<seq<string>>)
    ensures
      var r := FindSubjects(bidsDir, tree, includes, excludes);
      && (r.Err? <==> forall c :: !Wanted(bidsDir, tree, includes, excludes, c))
      && (r.Ok? ==> |r.value.ids| == |r.value.dirs| > 0)
      && (r.Ok? ==> forall i :: 0 <= i < |r.value.ids| ==> WantedEntry(r.value, i, bidsDir, tree, includes, excludes))
      && (r.Ok? ==> forall c :: Wanted(bidsDir, tree, includes, excludes, c) ==> PathOf(c) in r.value.dirs)
  {
    var keep := Keep(includes, excludes);
    var cs := Walk(bidsDir, tree);
    var r := Select(bidsDir, cs, keep);
    forall c ensures Wanted(bidsDir, tree, includes, excludes, c) <==> c in cs && keep(c) {
      WalkReaches(bidsDir, tree, c);
      if c in cs {
        WalkFindsSubjectDirs(bidsDir, tree, c);
      }
    }
    if r.Ok? {
      forall i | 0 <= i < |r.value.ids| ensures WantedEntry(r.value, i, bidsDir, tree, includes, excludes) {
        assert KeptEntry(r.value, i, cs, keep);
        var c :| c in cs && keep(c) && EntryOf(r.value, i, c);
        assert Wanted(bidsDir, tree, includes, excludes, c);
      }
    }
  }

  /** A reachable `sub-*` directory the tests as written let through. */
  ghost predicate WantedAsWritten(bidsDir: Path, tree: seq<Dir>, includes: Option<seq<string>>, excludes: Option<seq<string>>, c: Candidate) {
    Reaches(bidsDir, tree, c) && IsSubjectDir(c.name) && Included(includes, c.name) && NotExcludedAsWritten(excludes, c.name)
  }

  /** Entry `i` was stored for a directory the tests as written want. */
  ghost predicate WantedEntryAsWritten(f: Found, i: int, bidsDir: Path, tree: seq<Dir>, includes: Option<seq<string>>, excludes: Option<seq<string>>) {
    exists c :: WantedAsWritten(bidsDir, tree, includes, excludes, c) && EntryOf(f, i, c)
  }

  /** The search as written, stated over the reachable directories in the
      same way as `FindSubjectsSpec`, with the raw-name exclude test. */
  lemma FindSubjectsAsWrittenSpec(bidsDir: Path, tree: seq<Dir>, includes: Option<seq<string>>, excludes: Option<seq<string>>)
    ensures
      var r := FindSubjectsAsWritten(bidsDir, tree, includes, excludes);
      && (r.Err? <==> forall c :: !WantedAsWritten(bidsDir, tree, includes, excludes, c))
      && (r.Ok? ==> |r.value.ids| == |r.value.dirs| > 0)
      && (r.Ok? ==> forall i :: 0 <= i < |r.value.ids| ==> WantedEntryAsWritten(r.value, i, bidsDir, tree, includes, excludes))
      && (r.Ok? ==> forall c :: WantedAsWritten(bidsDir, tree, includes, excludes, c) ==> PathOf(c) in r.value.dirs)
  {
    var keep := KeepAsWritten(includes, excludes);
    var cs := Walk(bidsDir, tree);
    var r := Select(bidsDir, cs, keep);
    forall c ensures WantedAsWritten(bidsDir, tree, includes, excludes, c) <==> c in cs && keep(c) {
      WalkReaches(bidsDir, tree, c);
      if c in cs {
        WalkFindsSubjectDirs(bidsDir, tree, c);
      }
    }
    if r.Ok? {
      forall i | 0 <= i < |r.value.ids| ensures WantedEntryAsWritten(r.value, i, bidsDir, tree, includes, excludes) {
        assert KeptEntry(r.value, i, cs, keep);
        var c :| c in cs && keep(c) && EntryOf(r.value, i, c);
        assert WantedAsWritten(bidsDir, tree, includes, excludes, c);
      }
    }
  }

  /** Excluding by bare label: as written the subject is still found. */
  lemma ExcludedSubjectStillFound(bidsDir: Path, id: string, children: seq<Dir>)
    requires !Contains(id, SubjectToken)
    ensures FindSubjectsAsWritten(bidsDir, [Dir(SubjectToken + id, children)], None, Some([id]))
      == Ok(Found([id], [Join(bidsDir, SubjectToken + id)]))
    ensures FindSubjects(bidsDir, [Dir(SubjectToken + id, children)], None, Some([id]))
      == Err(NoSubjectDirs("No sub- dirs found in " + bidsDir))
  {
    var name := SubjectToken + id;
    var tree := [Dir(name, children)];
    BareLabelNotExcluded(id);
    assert IsSubjectDir(name);
    assert Here(bidsDir, tree) == [Candidate(bidsDir, name)];
    assert Below(bidsDir, tree) == [];
    var c := Candidate(bidsDir, name);
    assert Walk(bidsDir, tree) == [c];
    assert KeepAsWritten(None, Some([id]))(c);
    assert !Keep(None, Some([id]))(c);
    assert Filter([c], KeepAsWritten(None, Some([id]))) == [c];
    NoMemberEmpty(Filter([c], Keep(None, Some([id]))));
    assert IdOf(c) == id by {
      ReplaceLeading(SubjectToken, id, "");
      ReplaceAbsent(id, SubjectToken, "");
    }
    assert Map([c], IdOf) == [id];
    assert Map([c], PathOf) == [Join(bidsDir, name)];
  }
}
