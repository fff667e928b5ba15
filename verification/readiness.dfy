/** The driver `main` of `fmriprep_wf.py` (lines 273-318) as far as it is
    bookkeeping: where tedana writes each run, which inputs each run needs
    before the CIFTI workflow can take it, and which runs are handed on.
    The tedana and CIFTI workflows themselves are not modelled; the
    filesystem snapshot is the one the lookups see after tedana ran. */
module Readiness {
  import opened Wrappers
  import opened Strings
  import opened Lists
  import opened Paths
  import opened Failures
  import opened BidsNames
  import opened EchoRuns
  import opened Locate

  const TedanaDir := "tedana"
  const NativeSpace := "Native"
  const FsnativeKey := "fsnative"
  /** The default of `main`'s `space` argument. */
  const DefaultSpace := "MNI152NLin6Asym"

  // ---------------------------------------------------------------------
  // Output locations.

  /** The tedana output directory of a run: below `tedana`, the prefix's
      first `_`-separated field, then the prefix itself. */
  function OutDir(inDir: Path, prefix: string): Path {
    Join(Join(Join(inDir, TedanaDir), Before(prefix, "_")), prefix)
  }

  /** The directory of a run's outputs is named after the run, and sits
      in the folder of its first entity, which for a run of subject `sub`
      is `sub-<sub>`. */
  lemma OutDirOfRun(inDir: Path, sub: string, rest: string)
    requires IsLabel(sub) && NoSlash(SubjectToken + sub + "_" + rest)
    ensures
      var prefix := SubjectToken + sub + "_" + rest;
      && OutDir(inDir, prefix) == Join(Join(Join(inDir, TedanaDir), SubjectToken + sub), prefix)
      && Basename(OutDir(inDir, prefix)) == prefix
  {
    var head := SubjectToken + sub;
    var prefix := head + "_" + rest;
    forall j | 0 <= j < |head| ensures !OccursAt(prefix, "_", j) {
      assert prefix[j] == head[j];
      if j >= 4 {
        assert head[j] == sub[j - 4];
      }
      Mismatch(prefix, "_", j, 0);
    }
    assert OccursAt(prefix, "_", |head|);
    FirstOccurrence(prefix, "_", |head|);
    assert prefix[..|head|] == head;
    BasenameOfJoin(Join(Join(inDir, TedanaDir), head), prefix);
  }

  /** Distinct runs write to distinct directories. */
  lemma OutDirInjective(inDir: Path, p1: string, p2: string)
    requires NoSlash(p1) && NoSlash(p2)
    requires OutDir(inDir, p1) == OutDir(inDir, p2)
    ensures p1 == p2
  {
    JoinInjective(Join(Join(inDir, TedanaDir), Before(p1, "_")), p1,
                  Join(Join(inDir, TedanaDir), Before(p2, "_")), p2);
  }

  /** The sink folder of `run_cifti_wf` (lines 265-267): `sub-<sub>`, with
      `.ses-<ses>` appended when the run has a session. */
  function OutFolder(sub: string, ses: Option<string>): string {
    SubjectToken + sub + (if ses.Some? then "." + SessionToken + ses.value else "")
  }

  /** Reads subject and session back out of a sink folder name. */
  function ParseOutFolder(f: string): Option<(string, Option<string>)> {
    if !IsPrefix(SubjectToken, f) then None
    else
      var body := f[|SubjectToken|..];
      match AfterFirst(body, ".")
      case None => Some((body, None))
      case Some(rest) =>
        if IsPrefix(SessionToken, rest) then Some((Before(body, "."), Some(rest[|SessionToken|..])))
        else None
  }

  lemma OutFolderRoundTrip(sub: string, ses: Option<string>)
    requires IsLabel(sub)
    ensures ParseOutFolder(OutFolder(sub, ses)) == Some((sub, ses))
  {
    var f := OutFolder(sub, ses);
    var body := f[|SubjectToken|..];
    forall j | 0 <= j < |sub| ensures !OccursAt(body, ".", j) {
      assert body[j] == sub[j];
      Mismatch(body, ".", j, 0);
    }
    match ses
    case None =>
      assert body == sub;
    case Some(e) =>
      assert body == sub + "." + SessionToken + e;
      assert OccursAt(body, ".", |sub|);
      FirstOccurrence(body, ".", |sub|);
      assert body[|sub| + 1..] == SessionToken + e;
      assert body[..|sub|] == sub;
  }

  /** Two runs share a sink folder only if they have the same subject and
      session. */
  lemma OutFolderInjective(sub1: string, ses1: Option<string>, sub2: string, ses2: Option<string>)
    requires IsLabel(sub1) && IsLabel(sub2)
    requires OutFolder(sub1, ses1) == OutFolder(sub2, ses2)
    ensures sub1 == sub2 && ses1 == ses2
  {
    OutFolderRoundTrip(sub1, ses1);
    OutFolderRoundTrip(sub2, ses2);
  }

  // ---------------------------------------------------------------------
  // The density table of line 133.

  datatype Densities = Densities(fslr: string, mni: string)

  /** The fsLR mesh and MNI resolution for a grayordinate density: "91k"
      selects the 32k mesh at 2 mm, anything else the 59k mesh at 1 mm. */
  function Density(grayord: string): (r: Densities)
    ensures r.fslr == "32k" <==> grayord == "91k"
    ensures r == Densities("32k", "2") || r == Densities("59k", "1")
  {
    if grayord == "91k" then Densities("32k", "2") else Densities("59k", "1")
  }

  /** The grayordinate density a mesh belongs to. */
  function GrayordinatesOf(fslr: string): string {
    if fslr == "32k" then "91k" else "170k"
  }

  /** The two densities the workflow knows are told apart by the table, and
      every other value is read as the 170k one. */
  lemma DensityRoundTrip(grayord: string)
    ensures grayord == "91k" || grayord == "170k" ==> GrayordinatesOf(Density(grayord).fslr) == grayord
    ensures grayord != "91k" ==> Density(grayord) == Density("170k")
  {
  }

  // ---------------------------------------------------------------------
  // One row of the data frame after the lookups of lines 294-302.

  datatype Row = Row(
    run: Run,
    outDir: Path,
    native: Option<Path>,
    xfmBold: Option<Path>,
    xfmAnat: Option<Path>,
    xfmFsnative: Option<Path>,
    t1w: Option<Path>,
    t1wMask: Option<Path>)

  /** The column names of line 304. */
  const Required: seq<string> := ["Native", "xfm_bold", "xfm_anat", "xfm_fsnative", "t1w", "t1w_mask"]

  /** The cell of a row in the named column. */
  function Field(row: Row, name: string): Option<Path> {
    match name
    case "Native" => row.native
    case "xfm_bold" => row.xfmBold
    case "xfm_anat" => row.xfmAnat
    case "xfm_fsnative" => row.xfmFsnative
    case "t1w" => row.t1w
    case "t1w_mask" => row.t1wMask
    case _ => None
  }

  /** The test of line 305: no required cell is missing. */
  predicate Ready(row: Row) {
    && row.native.Some?
    && row.xfmBold.Some?
    && row.xfmAnat.Some?
    && row.xfmFsnative.Some?
    && row.t1w.Some?
    && row.t1wMask.Some?
  }

  lemma ReadyIffRequiredPresent(row: Row)
    ensures Ready(row) <==> forall n :: n in Required ==> Field(row, n).Some?
  {
    if forall n :: n in Required ==> Field(row, n).Some? {
      assert Field(row, Required[0]).Some? && Field(row, Required[1]).Some?;
      assert Field(row, Required[2]).Some? && Field(row, Required[3]).Some?;
      assert Field(row, Required[4]).Some? && Field(row, Required[5]).Some?;
    }
  }

  /** The native-space tedana output of a run: `find_tedana_outputs` on the
      run's output directory, read in the `Native` column. */
  function NativeOutput(fs: FileSystem, inDir: Path, run: Run): (r: Option<Path>)
    ensures r.Some? <==> fs.IsFile(Join(OutDir(inDir, run.prefix), TedanaOutputName(run.prefix, NativeSpace, DefaultSuffix)))
    ensures r.Some? ==> r.value == Join(OutDir(inDir, run.prefix), TedanaOutputName(run.prefix, NativeSpace, DefaultSuffix))
  {
    var o := FindTedanaOutputs(fs, OutDir(inDir, run.prefix), run.prefix, DefaultSpaces, DefaultSuffix);
    assert NativeSpace in DefaultSpaces;
    o.images[NativeSpace]
  }

  /** The message of line 308, `f` included. */
  function MissingMessage(prefix: string): string {
    "ERROR: f" + prefix + " missing required file(s)"
  }

  /** The message names the run it is about. */
  lemma MissingMessageNames(prefix: string)
    ensures var m := MissingMessage(prefix); m[8..|m| - 25] == prefix
  {
  }

  lemma MissingMessageInjective(p1: string, p2: string)
    requires MissingMessage(p1) == MissingMessage(p2)
    ensures p1 == p2
  {
    MissingMessageNames(p1);
    MissingMessageNames(p2);
  }

  /** Lines 296-302 as written: the transform map is searched under the
      subject `main` was called for, a missing key raises, and so does a
      subject without an anatomical directory. */
  function CompleteRowAsWritten(fs: FileSystem, inDir: Path, sub: string, space: string, run: Run): (r: Result<Row, Failure>)
    ensures r.Ok? <==>
      && FindAnatXfmAsWritten(fs, inDir, sub, run.ses).Ok?
      && space in FindAnatXfmAsWritten(fs, inDir, sub, run.ses).value
      && FsnativeKey in FindAnatXfmAsWritten(fs, inDir, sub, run.ses).value
      && FindT1w(fs, inDir, run.sub, run.ses).Some?
    ensures FindAnatXfmAsWritten(fs, inDir, sub, run.ses).Ok? && space !in FindAnatXfmAsWritten(fs, inDir, sub, run.ses).value ==>
      r == Err(MissingTransform(space))
    ensures r.Ok? ==> r.value.run == run && r.value.xfmAnat.Some? && r.value.xfmFsnative.Some?
  {
    var xfm :- FindAnatXfmAsWritten(fs, inDir, sub, run.ses);
    if space !in xfm then Err(MissingTransform(space))
    else if FsnativeKey !in xfm then Err(MissingTransform(FsnativeKey))
    else
      var t1 := FindT1w(fs, inDir, run.sub, run.ses);
      if t1.None? then Err(NoAnatomicalDirectory(run.sub))
      else
        Ok(Row(run, OutDir(inDir, run.prefix), NativeOutput(fs, inDir, run),
               FindBoldXfm(fs, inDir, run.sub, run.ses, run.prefix),
               Some(xfm[space]), Some(xfm[FsnativeKey]), t1.value.image, t1.value.mask))
  }

  /** A transform of the given key among the anatomical transform files. */
  predicate HasTransform(fs: FileSystem, inDir: Path, sub: string, ses: Option<string>, key: string) {
    exists f :: f in AnatXfmFiles(fs, inDir, sub, ses) && Contains(f, FromT1w) && TransformKey(f) == Some(key)
  }

  /** Both T1w files exist in the layout `find_t1w` settles on. */
  predicate HasT1w(fs: FileSystem, inDir: Path, sub: string, ses: Option<string>) {
    && AnatLayout(fs, inDir, sub, ses).Some?
    && var (dir, stem) := AnatLayout(fs, inDir, sub, ses).value;
    && fs.Exists(Join(dir, stem + T1wSuffix))
    && fs.Exists(Join(dir, stem + MaskSuffix))
  }

  /** Lines 296-302 with a missing transform or T1w recorded as a missing
      cell, so that the readiness test of line 305 decides; only a
      transform whose name has no `to-...-_mode` part still stops. */
  function CompleteRow(fs: FileSystem, inDir: Path, sub: string, space: string, run: Run): (r: Result<Row, Failure>)
    ensures r.Ok? <==> FindAnatXfm(fs, inDir, sub, run.ses).Ok?
    ensures r.Ok? ==> r.value.run == run
    ensures r.Ok? ==> (Ready(r.value) <==>
      && fs.IsFile(Join(OutDir(inDir, run.prefix), TedanaOutputName(run.prefix, NativeSpace, DefaultSuffix)))
      && fs.IsFile(Join(FuncDir(inDir, run.sub, run.ses), run.prefix + BoldXfmSuffix))
      && HasTransform(fs, inDir, sub, run.ses, space)
      && HasTransform(fs, inDir, sub, run.ses, FsnativeKey)
      && HasT1w(fs, inDir, run.sub, run.ses))
  {
    var xfm :- FindAnatXfm(fs, inDir, sub, run.ses);
    TransformCells(fs, inDir, sub, run.ses, space, xfm);
    var t1 := FindT1w(fs, inDir, run.sub, run.ses);
    T1wCells(fs, inDir, run.sub, run.ses);
    Ok(Row(run, OutDir(inDir, run.prefix), NativeOutput(fs, inDir, run),
           FindBoldXfm(fs, inDir, run.sub, run.ses, run.prefix),
           Cell(xfm, space), Cell(xfm, FsnativeKey),
           if t1.Some? then t1.value.image else None,
           if t1.Some? then t1.value.mask else None))
  }

  /** A dictionary entry, or the missing marker. */
  function Cell(m: map<string, Path>, k: string): (r: Option<Path>)
    ensures r.Some? <==> k in m
  {
    if k in m then Some(m[k]) else None
  }

  lemma TransformCells(fs: FileSystem, inDir: Path, sub: string, ses: Option<string>, space: string, xfm: map<string, Path>)
    requires FindAnatXfm(fs, inDir, sub, ses) == Ok(xfm)
    ensures space in xfm <==> HasTransform(fs, inDir, sub, ses, space)
    ensures FsnativeKey in xfm <==> HasTransform(fs, inDir, sub, ses, FsnativeKey)
  {
  }

  lemma T1wCells(fs: FileSystem, inDir: Path, sub: string, ses: Option<string>)
    ensures
      var t1 := FindT1w(fs, inDir, sub, ses);
      (t1.Some? && t1.value.image.Some? && t1.value.mask.Some?) <==> HasT1w(fs, inDir, sub, ses)
  {
  }

  // ---------------------------------------------------------------------
  // The whole of `main`.

  /** What `main` hands on: the data frame it returns, the rows given to
      the CIFTI workflow, and the error lines it prints. */
  datatype Outcome = Outcome(rows: seq<Row>, dispatched: seq<Row>, errors: seq<string>)

  /** Some run has its native-space output (line 292). */
  predicate AnyNative(fs: FileSystem, inDir: Path, runs: seq<Run>) {
    exists i | 0 <= i < |runs| :: NativeOutput(fs, inDir, runs[i]).Some?
  }

  /** Lines 303-313 once every row is complete: a ready row is dispatched
      when `cifti` is set, and an incomplete one is reported instead. */
  function Settle(rows: seq<Row>, cifti: bool): (o: Outcome)
    ensures o.rows == rows
    ensures forall row :: row in o.dispatched <==> cifti && row in rows && Ready(row)
    ensures IsSubsequence(o.dispatched, rows)
    ensures forall p :: MissingMessage(p) in o.errors <==>
      cifti && exists row :: row in rows && !Ready(row) && row.run.prefix == p
    ensures |o.dispatched| + |o.errors| == if cifti then |rows| else 0
  {
    if !cifti then Outcome(rows, [], [])
    else
      var ready := Filter(rows, Ready);
      var notReady := Filter(rows, NotReady);
      var errors := Map(notReady, (row: Row) => MissingMessage(row.run.prefix));
      FilterIsSubsequence(rows, Ready);
      FilterPartition(rows, Ready, NotReady);
      MessagesOfRows(notReady, errors);
      Outcome(rows, ready, errors)
  }

  predicate NotReady(row: Row) {
    !Ready(row)
  }

  lemma MessagesOfRows(rows: seq<Row>, errors: seq<string>)
    requires errors == Map(rows, (row: Row) => MissingMessage(row.run.prefix))
    ensures forall p :: MissingMessage(p) in errors <==> exists row :: row in rows && row.run.prefix == p
  {
    forall p ensures MissingMessage(p) in errors <==> exists row :: row in rows && row.run.prefix == p {
      if MissingMessage(p) in errors {
        var i :| 0 <= i < |errors| && errors[i] == MissingMessage(p);
        MissingMessageInjective(rows[i].run.prefix, p);
        assert rows[i] in rows;
      }
      if exists row :: row in rows && row.run.prefix == p {
        var row :| row in rows && row.run.prefix == p;
        var i :| 0 <= i < |rows| && rows[i] == row;
        assert errors[i] == MissingMessage(p);
      }
    }
  }

  /** Lines 276-318 once the runs are known, with `complete` filling in
      each row: no runs and no native output at all each stop `main`,
      and so does the first row that cannot be completed. */
  function Dispatch(fs: FileSystem, inDir: Path, runs: seq<Run>, complete: Run -> Result<Row, Failure>, cifti: bool): (r: Result<Outcome, Failure>)
    ensures runs == [] ==> r == Err(NoMultiechoData)
    ensures runs != [] && !AnyNative(fs, inDir, runs) ==> r == Err(NoTedanaOutputs)
    ensures r.Ok? <==> runs != [] && AnyNative(fs, inDir, runs) && forall i :: 0 <= i < |runs| ==> complete(runs[i]).Ok?
    ensures r.Ok? ==> |r.value.rows| == |runs| && forall i :: 0 <= i < |runs| ==> complete(runs[i]) == Ok(r.value.rows[i])
    ensures r.Err? && runs != [] && AnyNative(fs, inDir, runs) ==>
      exists i :: 0 <= i < |runs| && complete(runs[i]) == Err(r.error)
    ensures r.Ok? ==> forall row :: row in r.value.dispatched <==> cifti && row in r.value.rows && Ready(row)
    ensures r.Ok? ==> forall p :: MissingMessage(p) in r.value.errors <==>
      cifti && exists row :: row in r.value.rows && !Ready(row) && row.run.prefix == p
    ensures r.Ok? ==> |r.value.dispatched| + |r.value.errors| == if cifti then |runs| else 0
  {
    if runs == [] then Err(NoMultiechoData)
    else if !AnyNative(fs, inDir, runs) then Err(NoTedanaOutputs)
    else
      var rows :- MapAll(runs, complete);
      Ok(Settle(rows, cifti))
  }

  /** Row completion as written, one run at a time. */
  function CompleterAsWritten(fs: FileSystem, inDir: Path, sub: string, space: string): Run -> Result<Row, Failure> {
    run => CompleteRowAsWritten(fs, inDir, sub, space, run)
  }

  /** The corrected row completion, one run at a time. */
  function Completer(fs: FileSystem, inDir: Path, sub: string, space: string): Run -> Result<Row, Failure> {
    run => CompleteRow(fs, inDir, sub, space, run)
  }

  /** `main` as written: the runs table as the source builds it, then the
      row completion as written. */
  function MainAsWritten(fs: FileSystem, inDir: Path, sub: string, times: map<Path, real>, space: string, cifti: bool): (r: Result<Outcome, Failure>)
    ensures FindMultiechoDataAsWritten(fs, inDir, sub, times).Err? ==>
      r == Err(FindMultiechoDataAsWritten(fs, inDir, sub, times).error)
    ensures FindMultiechoDataAsWritten(fs, inDir, sub, times).Ok? ==>
      r == Dispatch(fs, inDir, FindMultiechoDataAsWritten(fs, inDir, sub, times).value,
                    CompleterAsWritten(fs, inDir, sub, space), cifti)
  {
    var runs :- FindMultiechoDataAsWritten(fs, inDir, sub, times);
    Dispatch(fs, inDir, runs, CompleterAsWritten(fs, inDir, sub, space), cifti)
  }

  /** `main` with the row completion of `CompleteRow`. */
  function Main(fs: FileSystem, inDir: Path, sub: string, times: map<Path, real>, space: string, cifti: bool): (r: Result<Outcome, Failure>)
    ensures FindMultiechoData(fs, inDir, sub, times).Err? ==> r == Err(FindMultiechoData(fs, inDir, sub, times).error)
    ensures FindMultiechoData(fs, inDir, sub, times).Ok? ==>
      r == Dispatch(fs, inDir, FindMultiechoData(fs, inDir, sub, times).value,
                    Completer(fs, inDir, sub, space), cifti)
  {
    var runs :- FindMultiechoData(fs, inDir, sub, times);
    Dispatch(fs, inDir, runs, Completer(fs, inDir, sub, space), cifti)
  }

  /** What lines 296-302 need of one run before its row exists: the
      transform search succeeds, holds the requested space and `fsnative`,
      and a T1w image is found. */
  predicate CompletesAsWritten(fs: FileSystem, inDir: Path, sub: string, space: string, run: Run) {
    && FindAnatXfmAsWritten(fs, inDir, sub, run.ses).Ok?
    && space in FindAnatXfmAsWritten(fs, inDir, sub, run.ses).value
    && FsnativeKey in FindAnatXfmAsWritten(fs, inDir, sub, run.ses).value
    && FindT1w(fs, inDir, run.sub, run.ses).Some?
  }

  /** `main` as written succeeds exactly when there are runs, one of them
      has a native output and every run meets `CompletesAsWritten`; its
      rows are then the runs in order, and readiness alone decides what is
      dispatched. */
  lemma MainAsWrittenRows(fs: FileSystem, inDir: Path, sub: string, times: map<Path, real>, space: string, cifti: bool)
    requires FindMultiechoDataAsWritten(fs, inDir, sub, times).Ok?
    ensures
      var runs := FindMultiechoDataAsWritten(fs, inDir, sub, times).value;
      var r := MainAsWritten(fs, inDir, sub, times, space, cifti);
      && (r.Ok? <==>
            && runs != []
            && AnyNative(fs, inDir, runs)
            && forall i :: 0 <= i < |runs| ==> CompletesAsWritten(fs, inDir, sub, space, runs[i]))
      && (r.Ok? ==> |r.value.rows| == |runs| && forall i :: 0 <= i < |runs| ==> r.value.rows[i].run == runs[i])
      && (r.Ok? ==> forall row :: row in r.value.dispatched <==> cifti && row in r.value.rows && Ready(row))
  {
    DispatchRowsAsWritten(fs, inDir, sub, space, FindMultiechoDataAsWritten(fs, inDir, sub, times).value, cifti);
  }

  lemma DispatchRowsAsWritten(fs: FileSystem, inDir: Path, sub: string, space: string, runs: seq<Run>, cifti: bool)
    ensures
      var r := Dispatch(fs, inDir, runs, CompleterAsWritten(fs, inDir, sub, space), cifti);
      && (r.Ok? <==>
            && runs != []
            && AnyNative(fs, inDir, runs)
            && forall i :: 0 <= i < |runs| ==> CompletesAsWritten(fs, inDir, sub, space, runs[i]))
      && (r.Ok? ==> |r.value.rows| == |runs| && forall i :: 0 <= i < |runs| ==> r.value.rows[i].run == runs[i])
  {
    var complete := CompleterAsWritten(fs, inDir, sub, space);
    var r := Dispatch(fs, inDir, runs, complete, cifti);
    assert forall i :: 0 <= i < |runs| ==> (complete(runs[i]).Ok? <==> CompletesAsWritten(fs, inDir, sub, space, runs[i]));
    if r.Ok? {
      forall i | 0 <= i < |runs| ensures r.value.rows[i].run == runs[i] {
        assert complete(runs[i]) == Ok(r.value.rows[i]);
      }
    }
  }

  /** The runs of the table as written have the same prefixes as the
      corrected ones, so the two agree on whether there are runs and on
      whether any has a native output. */
  lemma SameRunsAsWritten(fs: FileSystem, inDir: Path, sub: string, times: map<Path, real>)
    requires FindMultiechoData(fs, inDir, sub, times).Ok?
    ensures FindMultiechoDataAsWritten(fs, inDir, sub, times).Ok?
    ensures
      var a := FindMultiechoDataAsWritten(fs, inDir, sub, times).value;
      var c := FindMultiechoData(fs, inDir, sub, times).value;
      && |a| == |c|
      && (AnyNative(fs, inDir, c) ==> AnyNative(fs, inDir, a))
  {
    var files := EchoCandidates(fs, inDir, sub);
    assert FindMultiechoData(fs, inDir, sub, times) == GroupRuns(files, times);
    TablesShareRuns(files, times);
    var a := FindMultiechoDataAsWritten(fs, inDir, sub, times).value;
    var c := FindMultiechoData(fs, inDir, sub, times).value;
    if AnyNative(fs, inDir, c) {
      var i :| 0 <= i < |c| && NativeOutput(fs, inDir, c[i]).Some?;
      assert a[i].prefix == c[i].prefix;
      assert NativeOutput(fs, inDir, a[i]).Some?;
    }
  }

  /** Once there are runs and a native output, the corrected `main` gives
      every run its row, unless a transform name is malformed, and
      readiness alone decides what is dispatched. */
  lemma MainRows(fs: FileSystem, inDir: Path, sub: string, times: map<Path, real>, space: string, cifti: bool)
    requires FindMultiechoData(fs, inDir, sub, times).Ok?
    ensures
      var runs := FindMultiechoData(fs, inDir, sub, times).value;
      var r := Main(fs, inDir, sub, times, space, cifti);
      && (r.Ok? <==>
            && runs != []
            && AnyNative(fs, inDir, runs)
            && forall i :: 0 <= i < |runs| ==> FindAnatXfm(fs, inDir, sub, runs[i].ses).Ok?)
      && (r.Ok? ==> |r.value.rows| == |runs| && forall i :: 0 <= i < |runs| ==> r.value.rows[i].run == runs[i])
  {
    DispatchRows(fs, inDir, sub, space, FindMultiechoData(fs, inDir, sub, times).value, cifti);
  }

  lemma DispatchRows(fs: FileSystem, inDir: Path, sub: string, space: string, runs: seq<Run>, cifti: bool)
    ensures
      var r := Dispatch(fs, inDir, runs, Completer(fs, inDir, sub, space), cifti);
      && (r.Ok? <==>
            && runs != []
            && AnyNative(fs, inDir, runs)
            && forall i :: 0 <= i < |runs| ==> FindAnatXfm(fs, inDir, sub, runs[i].ses).Ok?)
      && (r.Ok? ==> |r.value.rows| == |runs| && forall i :: 0 <= i < |runs| ==> r.value.rows[i].run == runs[i])
  {
    var complete := Completer(fs, inDir, sub, space);
    var r := Dispatch(fs, inDir, runs, complete, cifti);
    assert forall i :: 0 <= i < |runs| ==> (complete(runs[i]).Ok? <==> FindAnatXfm(fs, inDir, sub, runs[i].ses).Ok?);
    if r.Ok? {
      forall i | 0 <= i < |runs| ensures r.value.rows[i].run == runs[i] {
        assert complete(runs[i]) == Ok(r.value.rows[i]);
      }
    }
  }

  /** A subject whose runs have tedana outputs but no anatomical transforms
      at all: `main` as written stops with a KeyError on the first row,
      while the readiness test would have reported every run and
      dispatched none. */
  lemma MissingTransformStopsMain(fs: FileSystem, inDir: Path, sub: string, times: map<Path, real>, space: string, cifti: bool)
    requires FindMultiechoData(fs, inDir, sub, times).Ok?
    requires FindMultiechoData(fs, inDir, sub, times).value != []
    requires AnyNative(fs, inDir, FindMultiechoData(fs, inDir, sub, times).value)
    requires forall ses :: AnatXfmFiles(fs, inDir, sub, ses) == []
    ensures MainAsWritten(fs, inDir, sub, times, space, cifti) == Err(MissingTransform(space))
    ensures Main(fs, inDir, sub, times, space, cifti).Ok?
    ensures Main(fs, inDir, sub, times, space, cifti).value.dispatched == []
    ensures cifti ==>
      |Main(fs, inDir, sub, times, space, cifti).value.errors| == |FindMultiechoData(fs, inDir, sub, times).value|
  {
    var runs := FindMultiechoData(fs, inDir, sub, times).value;
    SameRunsAsWritten(fs, inDir, sub, times);
    var written := FindMultiechoDataAsWritten(fs, inDir, sub, times).value;
    assert MainAsWritten(fs, inDir, sub, times, space, cifti) == Dispatch(fs, inDir, written, CompleterAsWritten(fs, inDir, sub, space), cifti);
    assert Main(fs, inDir, sub, times, space, cifti) == Dispatch(fs, inDir, runs, Completer(fs, inDir, sub, space), cifti);
    AsWrittenRowsFail(fs, inDir, sub, space, written);
    SameFailureStopsDispatch(fs, inDir, written, CompleterAsWritten(fs, inDir, sub, space), cifti, MissingTransform(space));
    MissingTransformDispatchesNone(fs, inDir, sub, space, runs, cifti);
  }

  lemma AsWrittenRowsFail(fs: FileSystem, inDir: Path, sub: string, space: string, runs: seq<Run>)
    requires forall ses :: AnatXfmFiles(fs, inDir, sub, ses) == []
    ensures forall i :: 0 <= i < |runs| ==> CompleterAsWritten(fs, inDir, sub, space)(runs[i]) == Err(MissingTransform(space))
  {
    forall i | 0 <= i < |runs| ensures CompleterAsWritten(fs, inDir, sub, space)(runs[i]) == Err(MissingTransform(space)) {
      NoTransformRowAsWritten(fs, inDir, sub, space, runs[i]);
    }
  }

  lemma NoTransformRowAsWritten(fs: FileSystem, inDir: Path, sub: string, space: string, run: Run)
    requires AnatXfmFiles(fs, inDir, sub, run.ses) == []
    ensures CompleteRowAsWritten(fs, inDir, sub, space, run) == Err(MissingTransform(space))
  {
    NoTransformFiles(fs, inDir, sub, run.ses);
  }

  /** When every row fails alike, `main` stops with that failure. */
  lemma SameFailureStopsDispatch(fs: FileSystem, inDir: Path, runs: seq<Run>, complete: Run -> Result<Row, Failure>, cifti: bool, e: Failure)
    requires runs != [] && AnyNative(fs, inDir, runs)
    requires forall i :: 0 <= i < |runs| ==> complete(runs[i]) == Err(e)
    ensures Dispatch(fs, inDir, runs, complete, cifti) == Err(e)
  {
    assert !complete(runs[0]).Ok?;
  }

  lemma MissingTransformDispatchesNone(fs: FileSystem, inDir: Path, sub: string, space: string, runs: seq<Run>, cifti: bool)
    requires runs != [] && AnyNative(fs, inDir, runs)
    requires forall ses :: AnatXfmFiles(fs, inDir, sub, ses) == []
    ensures
      var r := Dispatch(fs, inDir, runs, Completer(fs, inDir, sub, space), cifti);
      && r.Ok?
      && r.value.dispatched == []
      && (cifti ==> |r.value.errors| == |runs|)
  {
    var complete := Completer(fs, inDir, sub, space);
    forall i | 0 <= i < |runs| ensures complete(runs[i]).Ok? && !Ready(complete(runs[i]).value) {
      NoTransformRow(fs, inDir, sub, space, runs[i]);
    }
    NoneReadyDispatchesNone(fs, inDir, runs, complete, cifti);
  }

  lemma NoTransformRow(fs: FileSystem, inDir: Path, sub: string, space: string, run: Run)
    requires AnatXfmFiles(fs, inDir, sub, run.ses) == []
    ensures CompleteRow(fs, inDir, sub, space, run).Ok?
    ensures CompleteRow(fs, inDir, sub, space, run).value.xfmAnat.None?
  {
    NoTransformFiles(fs, inDir, sub, run.ses);
  }

  /** When every row is complete and none is ready, `main` dispatches
      nothing. */
  lemma NoneReadyDispatchesNone(fs: FileSystem, inDir: Path, runs: seq<Run>, complete: Run -> Result<Row, Failure>, cifti: bool)
    requires runs != [] && AnyNative(fs, inDir, runs)
    requires forall i :: 0 <= i < |runs| ==> complete(runs[i]).Ok? && !Ready(complete(runs[i]).value)
    ensures Dispatch(fs, inDir, runs, complete, cifti).Ok?
    ensures Dispatch(fs, inDir, runs, complete, cifti).value.dispatched == []
    ensures cifti ==> |Dispatch(fs, inDir, runs, complete, cifti).value.errors| == |runs|
  {
    var r := Dispatch(fs, inDir, runs, complete, cifti);
    assert forall row :: row in r.value.rows ==> !Ready(row) by {
      forall row | row in r.value.rows ensures !Ready(row) {
        var i :| 0 <= i < |r.value.rows| && r.value.rows[i] == row;
        assert complete(runs[i]) == Ok(row);
      }
    }
    NoMemberEmpty(r.value.dispatched);
  }

  lemma NoTransformFiles(fs: FileSystem, inDir: Path, sub: string, ses: Option<string>)
    requires AnatXfmFiles(fs, inDir, sub, ses) == []
    ensures FindAnatXfmAsWritten(fs, inDir, sub, ses) == Ok(map[])
    ensures FindAnatXfm(fs, inDir, sub, ses) == Ok(map[])
  {
  }
}
