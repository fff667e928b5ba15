/** The bookkeeping notebook `generate_sub.py`: which subject directories
    belong to the study list, which listed subjects already have their
    processed outputs, and the list of subjects still to run, written out
    with its length and the array range to submit it with. */
module Bookkeeping {
  import opened Wrappers
  import opened Strings
  import opened Lists
  import opened Paths
  import opened BidsNames
  import opened JobScripts

  // ---------------------------------------------------------------------
  // Lines 22-24: the subject directories and the study list.

  /** The subject glob keeps an entry directly inside the BIDS directory
      whose name starts with `sub-`. */
  predicate IsSubjectEntry(bidsDir: Path, e: Path) {
    IsChildOf(bidsDir, e) && IsPrefix(SubjectToken, Basename(e))
  }

  function SubjectEntry(bidsDir: Path): Path -> bool {
    e => IsSubjectEntry(bidsDir, e)
  }

  /** The subject directories in listing order. */
  function SubjectDirs(fs: FileSystem, bidsDir: Path): (r: seq<Path>)
    ensures forall e :: e in r <==> e in fs.Entries() && IsChildOf(bidsDir, e) && IsPrefix(SubjectToken, Basename(e))
    ensures IsSubsequence(r, fs.Entries())
  {
    FilterIsSubsequence(fs.Entries(), SubjectEntry(bidsDir));
    Filter(fs.Entries(), SubjectEntry(bidsDir))
  }

  /** The subject id of a directory: its name with `sub-` removed. */
  function IdOfDir(d: Path): string {
    StripSub(Basename(d))
  }

  function Listed(subList: seq<string>): Path -> bool {
    d => IdOfDir(d) in subList
  }

  function Unlisted(subList: seq<string>): Path -> bool {
    d => IdOfDir(d) !in subList
  }

  /** Lines 23-24: the directories outside the study list and those in it.
      Between them they hold every subject directory exactly once. */
  lemma ListedPartition(fs: FileSystem, bidsDir: Path, subList: seq<string>)
    ensures var dirs := SubjectDirs(fs, bidsDir);
      && multiset(Filter(dirs, Listed(subList))) + multiset(Filter(dirs, Unlisted(subList))) == multiset(dirs)
      && (forall d :: d in Filter(dirs, Listed(subList)) <==> d in dirs && IdOfDir(d) in subList)
      && (forall d :: d in Filter(dirs, Unlisted(subList)) <==> d in dirs && IdOfDir(d) !in subList)
  {
    FilterPartition(SubjectDirs(fs, bidsDir), Listed(subList), Unlisted(subList));
  }

  // ---------------------------------------------------------------------
  // Lines 39-46: the subjects already processed.

  const BoldSuffix := "_bold.nii.gz"
  const ProcSuffix := "_desc-smoothAROMAnonaggr_bold.nii.gz"

  /** A recursive glob for a suffix: entries at any depth below `dir`
      whose name ends with `suffix`. */
  function Matching(dir: Path, suffix: string): Path -> bool {
    e => IsBelow(dir, e) && IsSuffix(suffix, Basename(e))
  }

  /** Line 42: the raw BOLD series of a subject directory. */
  function FuncCount(fs: FileSystem, sDir: Path): nat {
    Count(fs.Entries(), Matching(sDir, BoldSuffix))
  }

  /** Line 44: the processed series under `derivatives/<sub-dir name>`. */
  function ProcCount(fs: FileSystem, bidsDir: Path, sDir: Path): nat {
    Count(fs.Entries(), Matching(Join(Join(bidsDir, "derivatives"), Basename(sDir)), ProcSuffix))
  }

  /** Line 45: done when there is raw data and as many processed series as
      raw ones. */
  predicate IsDone(fs: FileSystem, bidsDir: Path, sDir: Path) {
    ProcCount(fs, bidsDir, sDir) == FuncCount(fs, sDir) && FuncCount(fs, sDir) != 0
  }

  function Done(fs: FileSystem, bidsDir: Path): Path -> bool {
    d => IsDone(fs, bidsDir, d)
  }

  /** A listed subject directory with id `id` whose outputs are complete. */
  ghost predicate DoneDirFor(fs: FileSystem, bidsDir: Path, subList: seq<string>, id: string) {
    exists d :: d in SubjectDirs(fs, bidsDir) && IdOfDir(d) in subList && IsDone(fs, bidsDir, d) && IdOfDir(d) == id
  }

  lemma MapMember<T, U>(xs: seq<T>, f: T -> U, y: U)
    ensures y in Map(xs, f) <==> exists x :: x in xs && f(x) == y
  {
    if y in Map(xs, f) {
      var i :| 0 <= i < |xs| && Map(xs, f)[i] == y;
      assert xs[i] in xs;
    }
    if exists x :: x in xs && f(x) == y {
      var x :| x in xs && f(x) == y;
      var i :| 0 <= i < |xs| && xs[i] == x;
      assert Map(xs, f)[i] == y;
    }
  }

  /** The listed subject directories that are done. */
  function DoneDirs(fs: FileSystem, bidsDir: Path, subList: seq<string>): seq<Path> {
    Filter(Filter(SubjectDirs(fs, bidsDir), Listed(subList)), Done(fs, bidsDir))
  }

  lemma DoneDirsMember(fs: FileSystem, bidsDir: Path, subList: seq<string>, d: Path)
    ensures d in DoneDirs(fs, bidsDir, subList) <==>
      d in SubjectDirs(fs, bidsDir) && IdOfDir(d) in subList && IsDone(fs, bidsDir, d)
  {
    var kept := Filter(SubjectDirs(fs, bidsDir), Listed(subList));
    assert d in kept <==> d in SubjectDirs(fs, bidsDir) && IdOfDir(d) in subList;
  }

  /** `subDone`: the ids of the listed directories that are done, in
      directory order. */
  function DoneIds(fs: FileSystem, bidsDir: Path, subList: seq<string>): seq<string> {
    Map(DoneDirs(fs, bidsDir, subList), IdOfDir)
  }

  /** A subject counts as done exactly when some listed subject directory
      with that id has as many processed series as raw ones, and at least
      one; every done subject is on the study list. */
  lemma DoneIdsSpec(fs: FileSystem, bidsDir: Path, subList: seq<string>, id: string)
    ensures id in DoneIds(fs, bidsDir, subList) <==> DoneDirFor(fs, bidsDir, subList, id)
    ensures id in DoneIds(fs, bidsDir, subList) ==> id in subList
  {
    var done := DoneDirs(fs, bidsDir, subList);
    MapMember(done, IdOfDir, id);
    if id in DoneIds(fs, bidsDir, subList) {
      var d :| d in done && IdOfDir(d) == id;
      DoneDirsMember(fs, bidsDir, subList, d);
    }
    if DoneDirFor(fs, bidsDir, subList, id) {
      var d :| d in SubjectDirs(fs, bidsDir) && IdOfDir(d) in subList && IsDone(fs, bidsDir, d) && IdOfDir(d) == id;
      DoneDirsMember(fs, bidsDir, subList, d);
    }
  }

  // ---------------------------------------------------------------------
  // Lines 54-64: the subjects to run, the count file and the submit hint.

  function NotIn(done: seq<string>): string -> bool {
    s => s !in done
  }

  function In(done: seq<string>): string -> bool {
    s => s in done
  }

  /** Line 55: the listed subjects not done, in study-list order. */
  function ToRun(fs: FileSystem, bidsDir: Path, subList: seq<string>): seq<string> {
    Filter(subList, NotIn(DoneIds(fs, bidsDir, subList)))
  }

  /** The subjects to run keep the study list's order and duplicates, and
      are exactly the listed subjects without a complete directory; with
      the done ones they account for the whole list. */
  lemma ToRunSpec(fs: FileSystem, bidsDir: Path, subList: seq<string>)
    ensures var toRun := ToRun(fs, bidsDir, subList);
      && IsSubsequence(toRun, subList)
      && (forall id :: id in toRun <==> id in subList && !DoneDirFor(fs, bidsDir, subList, id))
      && |toRun| + |Filter(subList, In(DoneIds(fs, bidsDir, subList)))| == |subList|
  {
    var done := DoneIds(fs, bidsDir, subList);
    FilterIsSubsequence(subList, NotIn(done));
    FilterPartition(subList, In(done), NotIn(done));
    forall id ensures id in ToRun(fs, bidsDir, subList) <==> id in subList && !DoneDirFor(fs, bidsDir, subList, id) {
      DoneIdsSpec(fs, bidsDir, subList, id);
    }
  }

  /** Line 62: the length of the list and a newline. */
  function CountText(toRun: seq<string>): string {
    IntToString(|toRun|) + "\n"
  }

  function ParseCountText(t: string): Option<int> {
    if IsSuffix("\n", t) then ParseInt(t[..|t| - 1]) else None
  }

  lemma CountTextRoundTrip(toRun: seq<string>)
    ensures ParseCountText(CountText(toRun)) == Some(|toRun|)
  {
    var t := CountText(toRun);
    assert t[..|t| - 1] == IntToString(|toRun|);
    IntRoundTrip(|toRun|);
  }

  /** Line 64 as written: `qsub -J 0-<n-1> <script>`, printed even when
      nothing is left to run. */
  function SubmitHintAsWritten(toRun: seq<string>, script: Path): string {
    "qsub -J " + "0-" + IntToString(|toRun| - 1) + " " + script
  }

  /** Corrected: no submission when nothing is left to run. */
  function SubmitHint(toRun: seq<string>, script: Path): Option<string> {
    if toRun == [] then None else Some(SubmitHintAsWritten(toRun, script))
  }

  /** The range after `-J`, read as a PBS array range. */
  function HintRange(hint: string): Option<(int, Option<int>)> {
    if IsPrefix("qsub -J ", hint) then ParseArrayRange(Before(hint[8..], " ")) else None
  }

  lemma HintRangeOf(toRun: seq<string>, script: Path)
    ensures HintRange(SubmitHintAsWritten(toRun, script)) == Some((|toRun| - 1, None))
  {
    var n := IntToString(|toRun| - 1);
    var h := SubmitHintAsWritten(toRun, script);
    assert h[..8] == "qsub -J ";
    var body := h[8..];
    assert body == ArrayRange(|toRun|, None) + " " + script;
    var r := ArrayRange(|toRun|, None);
    NumeralLacks(|toRun| - 1, ' ');
    assert r == "0-" + n;
    assert !Contains(r, " ") by {
      forall j | 0 <= j <= |r| - 1 ensures !OccursAt(r, " ", j) {
        OccursAtChar(r, ' ', j);
        if j >= 2 {
          assert r[j] == n[j - 2];
          OccursAtChar(n, ' ', j - 2);
        }
      }
    }
    assert OccursAt(body, " ", |r|) by {
      assert body[|r|..|r| + 1] == " ";
    }
    forall j | 0 <= j < |r| ensures !OccursAt(body, " ", j) {
      OccursAtChar(body, ' ', j);
      OccursAtChar(r, ' ', j);
      assert body[j] == r[j];
    }
    FirstOccurrence(body, " ", |r|);
    assert body[..|r|] == r;
    ArrayRangeRoundTrip(|toRun|, None);
  }

  /** The corrected hint exists exactly when something is left to run, and
      its range then covers the indices of the saved list one to one. */
  lemma SubmitHintCoversList(toRun: seq<string>, script: Path)
    ensures SubmitHint(toRun, script).Some? <==> |toRun| > 0
    ensures SubmitHint(toRun, script).Some? ==> HintRange(SubmitHint(toRun, script).value) == Some((|toRun| - 1, None))
  {
    if toRun != [] {
      HintRangeOf(toRun, script);
    }
  }

  /** As written, with every listed subject done the hint asks for the
      array `0--1`, a range whose last index comes before its first. */
  lemma NothingLeftStillSubmits(script: Path)
    ensures HintRange(SubmitHintAsWritten([], script)) == Some((-1, None))
    ensures SubmitHint([], script) == None
  {
    HintRangeOf([], script);
  }

  /** What the notebook leaves behind: the saved list, the count file's
      text, and the printed submit hint. */
  datatype Plan = Plan(toRun: seq<string>, countText: string, hint: Option<string>)

  /** Lines 53-64 as written: the hint is printed whatever is left to run,
      and its range always ends at one less than the count. */
  function BookkeepAsWritten(fs: FileSystem, bidsDir: Path, subList: seq<string>, script: Path): (r: Plan)
    ensures r.toRun == ToRun(fs, bidsDir, subList)
    ensures ParseCountText(r.countText) == Some(|r.toRun|)
    ensures r.hint.Some?
    ensures HintRange(r.hint.value) == Some((|r.toRun| - 1, None))
  {
    var toRun := ToRun(fs, bidsDir, subList);
    CountTextRoundTrip(toRun);
    HintRangeOf(toRun, script);
    Plan(toRun, CountText(toRun), Some(SubmitHintAsWritten(toRun, script)))
  }

  /** Corrected: the same list and count, and a hint only when something
      is left to run, whose range then covers the saved list. */
  function Bookkeep(fs: FileSystem, bidsDir: Path, subList: seq<string>, script: Path): (r: Plan)
    ensures r.toRun == ToRun(fs, bidsDir, subList)
    ensures ParseCountText(r.countText) == Some(|r.toRun|)
    ensures r.hint.Some? <==> r.toRun != []
    ensures r.hint.Some? ==> HintRange(r.hint.value) == Some((|r.toRun| - 1, None))
  {
    var toRun := ToRun(fs, bidsDir, subList);
    CountTextRoundTrip(toRun);
    PlanOf(toRun, CountText(toRun), script)
  }

  function PlanOf(toRun: seq<string>, countText: string, script: Path): (r: Plan)
    ensures r.toRun == toRun && r.countText == countText
    ensures r.hint.Some? <==> toRun != []
    ensures r.hint.Some? ==> HintRange(r.hint.value) == Some((|toRun| - 1, None))
  {
    SubmitHintCoversList(toRun, script);
    Plan(toRun, countText, SubmitHint(toRun, script))
  }

  /** The two plans differ only when every listed subject is done: then
      the source still prints a hint for the empty range `0--1`. */
  lemma BookkeepDiffersOnlyWhenDone(fs: FileSystem, bidsDir: Path, subList: seq<string>, script: Path)
    ensures BookkeepAsWritten(fs, bidsDir, subList, script) == Bookkeep(fs, bidsDir, subList, script)
      <==> ToRun(fs, bidsDir, subList) != []
  {
    var toRun := ToRun(fs, bidsDir, subList);
    if toRun == [] {
      assert Bookkeep(fs, bidsDir, subList, script).hint.None?;
    }
  }
}
