/** Run discovery in fmriprep_wf.py: find the preprocessed echo images of
    one subject, derive each run's prefix from the BIDS file names, parse
    the subject, session and task entities out of it, and gather each run's
    echo images with their echo times. */
module EchoRuns {
  import opened Wrappers
  import opened Strings
  import opened Lists
  import opened Sorting
  import opened Paths
  import opened Failures
  import opened BidsNames

  /** One row of the runs table: `(sub, ses, prefix, run, echo_images,
      echo_times)`. */
  datatype Run = Run(
    sub: string,
    ses: Option<string>,
    prefix: string,
    task: string,
    echoImages: seq<Path>,
    echoTimes: seq<real>)

  // ---------------------------------------------------------------------
  // The globs of lines 15 and 41 over the snapshot.

  /** The directory both globs search below: `{inDir}/sub-{sub}`. */
  function SubjectRoot(inDir: Path, sub: string): Path {
    inDir + "/sub-" + sub
  }

  /** The shell pattern of the echo glob on a file name: `stem`, `_`,
      anything, `_echo-`, anything, and `preproc_bold.nii.gz`. */
  predicate MatchesEchoPattern(stem: string, name: string) {
    && IsPrefix(stem + "_", name)
    && exists i :: |stem| + 1 <= i <= |name| - |EchoToken|
         && OccursAt(name, EchoToken, i)
         && IsSuffix(EchoSuffix, name[i + |EchoToken|..])
  }

  /** The shell pattern of the functional glob with its default suffix:
      `stem`, `_`, anything, and `_preproc_bold.nii.gz`. */
  predicate MatchesFuncPattern(stem: string, name: string) {
    IsPrefix(stem + "_", name) && IsSuffix(FuncSuffix, name[|stem| + 1..])
  }

  predicate IsEchoImage(inDir: Path, sub: string, e: Path) {
    IsBelow(SubjectRoot(inDir, sub), e) && MatchesEchoPattern("sub-" + sub, Basename(e))
  }

  predicate IsFuncImage(inDir: Path, sub: string, e: Path) {
    IsBelow(SubjectRoot(inDir, sub), e) && MatchesFuncPattern("sub-" + sub, Basename(e))
  }

  predicate NotInSpace(f: Path) {
    !Contains(f, SpaceToken)
  }

  /** Lines 41-42: the echo images below the subject directory, without any
      path that mentions `_space-`, in listing order. */
  function EchoCandidates(fs: FileSystem, inDir: Path, sub: string): (r: seq<Path>)
    ensures forall f :: f in r <==>
      f in fs.Entries() && IsEchoImage(inDir, sub, f) && !Contains(f, SpaceToken)
  {
    Filter(Filter(fs.Entries(), e => IsEchoImage(inDir, sub, e)), NotInSpace)
  }

  /** Lines 15-16, the same for `find_func_data` with its default suffix. */
  function FuncCandidates(fs: FileSystem, inDir: Path, sub: string): (r: seq<Path>)
    ensures forall f :: f in r <==>
      f in fs.Entries() && IsFuncImage(inDir, sub, f) && !Contains(f, SpaceToken)
  {
    Filter(Filter(fs.Entries(), e => IsFuncImage(inDir, sub, e)), NotInSpace)
  }

  // ---------------------------------------------------------------------
  // Prefixes.


  /** A name the echo glob matched always has an `_echo-`, and its prefix
      keeps the `sub-<stem>_` it starts with. */
  lemma EchoPatternHasPrefix(stem: string, name: string)
    requires MatchesEchoPattern(stem, name)
    ensures EchoPrefix(name).Some?
    ensures IsPrefix(stem + "_", EchoPrefix(name).value)
  {
    var i :| |stem| + 1 <= i <= |name| - |EchoToken| && OccursAt(name, EchoToken, i);
    assert Contains(name, EchoToken);
    var p := EchoPrefix(name).value;
    assert |p| >= i;
    assert p[..|stem| + 1] == name[..|stem| + 1];
  }

  /** Line 43: one prefix per file, in order; the first file without an
      `_echo-` ends the scan. */
  function PrefixList(files: seq<Path>): (r: Result<seq<string>, Failure>)
    ensures r.Ok? <==> forall i :: 0 <= i < |files| ==> EchoPrefix(Basename(files[i])).Some?
    ensures r.Ok? ==> |r.value| == |files|
    ensures r.Ok? ==> forall i :: 0 <= i < |files| ==> EchoPrefix(Basename(files[i])) == Some(r.value[i])
    ensures r.Err? ==>
      exists i :: 0 <= i < |files| && r.error == NoEchoEntity(files[i]) && EchoPrefix(Basename(files[i])).None?
  {
    MapAll(files, PrefixOf)
  }

  /** Line 43 for one file. */
  function PrefixOf(f: Path): (r: Result<string, Failure>)
    ensures r.Ok? <==> EchoPrefix(Basename(f)).Some?
    ensures r.Ok? ==> EchoPrefix(Basename(f)) == Some(r.value)
    ensures r.Err? ==> r.error == NoEchoEntity(f)
  {
    match EchoPrefix(Basename(f))
    case None => Err(NoEchoEntity(f))
    case Some(p) => Ok(p)
  }

  /** Line 44: the distinct prefixes. */
  function RunPrefixes(files: seq<Path>): (r: Result<seq<string>, Failure>)
    ensures r.Ok? <==> forall i :: 0 <= i < |files| ==> EchoPrefix(Basename(files[i])).Some?
    ensures r.Ok? ==> Distinct(r.value)
    ensures r.Ok? ==> forall p :: p in r.value <==> exists f :: f in files && EchoPrefix(Basename(f)) == Some(p)
    ensures r.Err? ==> exists f :: f in files && r.error == NoEchoEntity(f)
  {
    var ps :- PrefixList(files);
    PrefixesOfFiles(files, ps);
    Ok(Dedup(ps))
  }

  lemma PrefixesOfFiles(files: seq<Path>, ps: seq<string>)
    requires PrefixList(files) == Ok(ps)
    ensures forall p :: p in ps <==> exists f :: f in files && EchoPrefix(Basename(f)) == Some(p)
  {
    forall p ensures p in ps <==> exists f :: f in files && EchoPrefix(Basename(f)) == Some(p) {
      if p in ps {
        var i :| 0 <= i < |ps| && ps[i] == p;
        assert files[i] in files;
      }
      if exists f :: f in files && EchoPrefix(Basename(f)) == Some(p) {
        var f :| f in files && EchoPrefix(Basename(f)) == Some(p);
        var i :| 0 <= i < |files| && files[i] == f;
        assert ps[i] == p;
      }
    }
  }

  // ---------------------------------------------------------------------
  // Echo times (line 59): read from the JSON sidecar next to each image.

  /** The JSON sidecar of an image: every `.nii.gz` turned into `.json`. */
  function Sidecar(image: Path): Path {
    ReplaceAll(image, ".nii.gz", ".json")
  }

  /** The echo time of each image in turn; the first image whose sidecar is
      missing (or has no `EchoTime`) ends the scan. */
  function LookupEchoTimes(images: seq<Path>, times: map<Path, real>): (r: Result<seq<real>, Failure>)
    ensures r.Ok? <==> forall i :: 0 <= i < |images| ==> Sidecar(images[i]) in times
    ensures r.Ok? ==> |r.value| == |images|
    ensures r.Ok? ==> forall i :: 0 <= i < |images| ==> r.value[i] == times[Sidecar(images[i])]
    ensures r.Err? ==> exists i :: 0 <= i < |images| && Sidecar(images[i]) !in times
                        && r.error == NoEchoTime(Sidecar(images[i]))
  {
    if images == [] then Ok([])
    else if Sidecar(images[0]) !in times then Err(NoEchoTime(Sidecar(images[0])))
    else
      var rest := LookupEchoTimes(images[1..], times);
      assert forall i :: 1 <= i < |images| ==> images[i] == images[1..][i - 1];
      match rest
      case Err(e) =>
        assert exists i :: 0 <= i < |images| && Sidecar(images[i]) !in times
                        && e == NoEchoTime(Sidecar(images[i])) by {
          var j :| 0 <= j < |images[1..]| && Sidecar(images[1..][j]) !in times
                        && e == NoEchoTime(Sidecar(images[1..][j]));
          assert images[j + 1] == images[1..][j];
        }
        Err(e)
      case Ok(ts) =>
        Ok([times[Sidecar(images[0])]] + ts)
  }

  predicate RealLe(a: real, b: real) {
    a <= b
  }

  lemma LexLeTotal()
    ensures Total(LexLe)
  {
    forall a: string, b: string ensures LexLe(a, b) || LexLe(b, a) {
      LexTotal(a, b);
    }
  }

  lemma RealLeTotal()
    ensures Total(RealLe)
  {
  }

  lemma SortSameElementsAll<T(!new)>(s: seq<T>, le: (T, T) -> bool)
    ensures forall x :: x in Sort(s, le) <==> x in s
  {
    forall x ensures x in Sort(s, le) <==> x in s {
      SortSameElements(s, le, x);
    }
  }

  // ---------------------------------------------------------------------
  // Gathering a run, as written (lines 56-62).

  /** The test of line 56: the path mentions the prefix anywhere. */
  function Mentions(prefix: string): Path -> bool {
    f => Contains(f, prefix)
  }

  /** Lines 56-57: every candidate path that contains the prefix anywhere,
      sorted as strings. */
  function SubstringGroup(prefix: string, files: seq<Path>): (r: seq<Path>)
    ensures forall f :: f in r <==> f in files && Contains(f, prefix)
    ensures multiset(r) == multiset(Filter(files, Mentions(prefix)))
    ensures SortedBy(r, LexLe)
    ensures |r| <= |files|
  {
    var members := Filter(files, Mentions(prefix));
    LexLeTotal();
    SortSameElementsAll(members, LexLe);
    Sort(members, LexLe)
  }

  /** The run as the source builds it: the substring group sorted as
      strings, and the echo times of those images sorted on their own. */
  function RunAsWritten(prefix: string, files: seq<Path>, times: map<Path, real>): (r: Result<Run, Failure>)
    ensures r.Ok? <==>
      && Contains(prefix, TaskToken)
      && (forall f :: f in files && Contains(f, prefix) ==> Sidecar(f) in times)
    ensures !Contains(prefix, TaskToken) ==> r == Err(NoTaskEntity(prefix))
    ensures r.Err? && Contains(prefix, TaskToken) ==>
      exists f :: f in files && Contains(f, prefix) && Sidecar(f) !in times && r.error == NoEchoTime(Sidecar(f))
    ensures r.Ok? ==> r.value.prefix == prefix
    ensures r.Ok? ==> ParsePrefix(prefix) == Ok(RunName(r.value.sub, r.value.ses, r.value.task))
    ensures r.Ok? ==> forall f :: f in r.value.echoImages <==> f in files && Contains(f, prefix)
    ensures r.Ok? ==> multiset(r.value.echoImages) == multiset(Filter(files, Mentions(prefix)))
    ensures r.Ok? ==> SortedBy(r.value.echoImages, LexLe)
    ensures r.Ok? ==> |r.value.echoImages| <= |files|
    ensures r.Ok? ==> |r.value.echoTimes| == |r.value.echoImages|
    ensures r.Ok? ==> SortedBy(r.value.echoTimes, RealLe)
    ensures r.Ok? ==> LookupEchoTimes(r.value.echoImages, times).Ok?
    ensures r.Ok? ==> multiset(r.value.echoTimes) == multiset(LookupEchoTimes(r.value.echoImages, times).value)
    ensures r.Ok? ==> forall t :: t in r.value.echoTimes <==>
      exists i :: 0 <= i < |r.value.echoImages| && Sidecar(r.value.echoImages[i]) in times
                  && times[Sidecar(r.value.echoImages[i])] == t
  {
    var name :- ParsePrefix(prefix);
    var images := SubstringGroup(prefix, files);
    SubstringGroupTimed(prefix, files, times);
    UntimedMention(prefix, files, times);
    var ts :- LookupEchoTimes(images, times);
    LookedUpTimes(images, times, ts);
    RealLeTotal();
    Ok(Run(name.sub, name.ses, prefix, name.task, images, Sort(ts, RealLe)))
  }

  lemma SubstringGroupTimed(prefix: string, files: seq<Path>, times: map<Path, real>)
    ensures LookupEchoTimes(SubstringGroup(prefix, files), times).Ok? <==>
      forall f :: f in files && Contains(f, prefix) ==> Sidecar(f) in times
  {
    LookupTimesMembers(SubstringGroup(prefix, files), times);
  }

  /** A failed lookup over the group names a mentioning image without a
      time. */
  lemma UntimedMention(prefix: string, files: seq<Path>, times: map<Path, real>)
    ensures
      var l := LookupEchoTimes(SubstringGroup(prefix, files), times);
      l.Err? ==> exists f :: f in files && Contains(f, prefix) && Sidecar(f) !in times && l.error == NoEchoTime(Sidecar(f))
  {
    var images := SubstringGroup(prefix, files);
    var l := LookupEchoTimes(images, times);
    if l.Err? {
      var i :| 0 <= i < |images| && Sidecar(images[i]) !in times && l.error == NoEchoTime(Sidecar(images[i]));
      assert images[i] in images;
    }
  }

  /** The lookup succeeds exactly when every image has a recorded time. */
  lemma LookupTimesMembers(images: seq<Path>, times: map<Path, real>)
    ensures LookupEchoTimes(images, times).Ok? <==> forall f :: f in images ==> Sidecar(f) in times
  {
    if LookupEchoTimes(images, times).Ok? {
      forall f | f in images ensures Sidecar(f) in times {
        var i :| 0 <= i < |images| && images[i] == f;
      }
    }
  }

  /** The times sorted on their own are the times of the images. */
  lemma LookedUpTimes(images: seq<Path>, times: map<Path, real>, ts: seq<real>)
    requires LookupEchoTimes(images, times) == Ok(ts)
    ensures forall t :: t in Sort(ts, RealLe) <==>
      exists i :: 0 <= i < |images| && Sidecar(images[i]) in times && times[Sidecar(images[i])] == t
  {
    SortSameElementsAll(ts, RealLe);
    forall t | t in ts
      ensures exists i :: 0 <= i < |images| && Sidecar(images[i]) in times && times[Sidecar(images[i])] == t
    {
      var i :| 0 <= i < |ts| && ts[i] == t;
    }
  }

  // ---------------------------------------------------------------------
  // Gathering a run by its exact prefix.

  /** An echo image with the echo time its sidecar records. */
  datatype Echo = Echo(image: Path, time: real)

  /** Echoes in order of echo time; equal times in order of path. */
  predicate EchoLe(a: Echo, b: Echo) {
    a.time < b.time || (a.time == b.time && LexLe(a.image, b.image))
  }

  lemma EchoLeTotal()
    ensures Total(EchoLe)
  {
    forall a: Echo, b: Echo ensures EchoLe(a, b) || EchoLe(b, a) {
      LexTotal(a.image, b.image);
    }
  }

  /** `f` belongs to the run: its own name yields exactly this prefix. */
  predicate InRun(prefix: string, f: Path) {
    EchoPrefix(Basename(f)) == Some(prefix)
  }

  /** Every echo carries the time recorded for its own image. */
  predicate Consistent(es: seq<Echo>, times: map<Path, real>) {
    forall i :: 0 <= i < |es| ==> Sidecar(es[i].image) in times && es[i].time == times[Sidecar(es[i].image)]
  }

  function Pair(images: seq<Path>, ts: seq<real>): (r: seq<Echo>)
    requires |images| == |ts|
    ensures |r| == |images|
    ensures forall i :: 0 <= i < |r| ==> r[i] == Echo(images[i], ts[i])
  {
    if images == [] then [] else [Echo(images[0], ts[0])] + Pair(images[1..], ts[1..])
  }

  /** The images whose own prefix is `prefix`, sorted as strings. */
  function RunMembers(prefix: string, files: seq<Path>): (r: seq<Path>)
    ensures forall f :: f in r <==> f in files && InRun(prefix, f)
    ensures SortedBy(r, LexLe)
  {
    var members := Filter(files, f => InRun(prefix, f));
    LexLeTotal();
    SortSameElementsAll(members, LexLe);
    Sort(members, LexLe)
  }

  /** Pairing each image with its time and sorting the pairs keeps every
      image with its own time. */
  lemma PairedEchoes(images: seq<Path>, ts: seq<real>, times: map<Path, real>)
    requires |images| == |ts|
    requires forall i :: 0 <= i < |images| ==> Sidecar(images[i]) in times && ts[i] == times[Sidecar(images[i])]
    ensures
      var es := Sort(Pair(images, ts), EchoLe);
      && |es| == |images|
      && Consistent(es, times)
      && SortedBy(es, EchoLe)
      && (forall e :: e in es ==> e.image in images)
      && (forall f :: f in images ==> exists e :: e in es && e.image == f)
  {
    var pairs := Pair(images, ts);
    var es := Sort(pairs, EchoLe);
    EchoLeTotal();
    SortSameElementsAll(pairs, EchoLe);
    forall f | f in images ensures exists e :: e in es && e.image == f {
      var i :| 0 <= i < |images| && images[i] == f;
      assert pairs[i] in pairs;
    }
    forall e | e in es ensures e.image in images {
      var k :| 0 <= k < |pairs| && pairs[k] == e;
    }
    forall i | 0 <= i < |es|
      ensures Sidecar(es[i].image) in times && es[i].time == times[Sidecar(es[i].image)]
    {
      assert es[i] in pairs;
      var k :| 0 <= k < |pairs| && pairs[k] == es[i];
    }
  }

  /** Every image of the run has a sidecar with an echo time. */
  predicate AllTimed(prefix: string, files: seq<Path>, times: map<Path, real>) {
    forall f :: f in files && InRun(prefix, f) ==> Sidecar(f) in times
  }

  /** `es` are the echoes of the run: exactly its images, each with its own
      time, in ascending order of time. */
  predicate IsRunEchoes(es: seq<Echo>, prefix: string, files: seq<Path>, times: map<Path, real>) {
    && (forall e :: e in es ==> e.image in files && InRun(prefix, e.image))
    && (forall f :: f in files && InRun(prefix, f) ==> exists e :: e in es && e.image == f)
    && Consistent(es, times)
    && SortedBy(es, EchoLe)
  }

  lemma TimedEchoes(prefix: string, files: seq<Path>, times: map<Path, real>, ts: seq<real>)
    requires LookupEchoTimes(RunMembers(prefix, files), times) == Ok(ts)
    ensures AllTimed(prefix, files, times)
    ensures
      var es := Sort(Pair(RunMembers(prefix, files), ts), EchoLe);
      IsRunEchoes(es, prefix, files, times) && |es| == |RunMembers(prefix, files)|
  {
    var images := RunMembers(prefix, files);
    forall f | f in files && InRun(prefix, f) ensures Sidecar(f) in times {
      var i :| 0 <= i < |images| && images[i] == f;
    }
    PairedEchoes(images, ts, times);
  }

  lemma UntimedEcho(prefix: string, files: seq<Path>, times: map<Path, real>, e: Failure)
    requires LookupEchoTimes(RunMembers(prefix, files), times) == Err(e)
    ensures exists f :: f in files && InRun(prefix, f) && Sidecar(f) !in times && e == NoEchoTime(Sidecar(f))
  {
    var images := RunMembers(prefix, files);
    var i :| 0 <= i < |images| && Sidecar(images[i]) !in times && e == NoEchoTime(Sidecar(images[i]));
    assert images[i] in images;
  }

  /** The echoes of one run: the images whose own prefix is `prefix`, each
      paired with its echo time and ordered by it. */
  function EchoesOf(prefix: string, files: seq<Path>, times: map<Path, real>): (r: Result<seq<Echo>, Failure>)
    ensures r.Ok? <==> AllTimed(prefix, files, times)
    ensures r.Err? ==> exists f :: f in files && InRun(prefix, f) && Sidecar(f) !in times
                                   && r.error == NoEchoTime(Sidecar(f))
    ensures r.Ok? ==> IsRunEchoes(r.value, prefix, files, times)
    ensures r.Ok? ==> |r.value| == |RunMembers(prefix, files)|
  {
    match LookupEchoTimes(RunMembers(prefix, files), times)
    case Err(e) =>
      UntimedEcho(prefix, files, times, e);
      Err(e)
    case Ok(ts) =>
      TimedEchoes(prefix, files, times, ts);
      Ok(Sort(Pair(RunMembers(prefix, files), ts), EchoLe))
  }

  function Images(es: seq<Echo>): (r: seq<Path>)
    ensures |r| == |es| && forall i :: 0 <= i < |es| ==> r[i] == es[i].image
  {
    Map(es, (e: Echo) => e.image)
  }

  function Times(es: seq<Echo>): (r: seq<real>)
    ensures |r| == |es| && forall i :: 0 <= i < |es| ==> r[i] == es[i].time
  {
    Map(es, (e: Echo) => e.time)
  }

  /** The image and time columns of a run's row: exactly the run's
      images, and at each position the echo time read from that image's
      own sidecar, in ascending order of time. */
  ghost predicate IsRunRow(images: seq<Path>, ts: seq<real>, prefix: string, files: seq<Path>, times: map<Path, real>) {
    && (forall f :: f in images <==> f in files && InRun(prefix, f))
    && |ts| == |images|
    && (forall i :: 0 <= i < |images| ==> Sidecar(images[i]) in times && ts[i] == times[Sidecar(images[i])])
    && SortedBy(ts, RealLe)
  }

  lemma ImagesOfEchoes(es: seq<Echo>, prefix: string, files: seq<Path>)
    requires forall e :: e in es ==> e.image in files && InRun(prefix, e.image)
    requires forall f :: f in files && InRun(prefix, f) ==> exists e :: e in es && e.image == f
    ensures forall f :: f in Images(es) <==> f in files && InRun(prefix, f)
  {
    var images := Images(es);
    forall f ensures f in images <==> f in files && InRun(prefix, f) {
      if f in images {
        var i :| 0 <= i < |images| && images[i] == f;
        assert es[i] in es;
      }
      if f in files && InRun(prefix, f) {
        var e :| e in es && e.image == f;
        var i :| 0 <= i < |es| && es[i] == e;
        assert images[i] == f;
      }
    }
  }

  lemma TimesOfEchoes(es: seq<Echo>)
    requires SortedBy(es, EchoLe)
    ensures SortedBy(Times(es), RealLe)
  {
    forall i | 0 <= i < |es| - 1 ensures es[i].time <= es[i + 1].time {
      assert EchoLe(es[i], es[i + 1]);
    }
  }

  lemma RowOfEchoes(es: seq<Echo>, prefix: string, files: seq<Path>, times: map<Path, real>)
    requires IsRunEchoes(es, prefix, files, times)
    ensures IsRunRow(Images(es), Times(es), prefix, files, times)
  {
    ImagesOfEchoes(es, prefix, files);
    TimesOfEchoes(es);
  }

  /** One row of the runs table, gathered by exact prefix: the images that
      belong to the run and, position by position, the echo time read from
      each image's own sidecar, in ascending echo time. */
  function RunOf(prefix: string, files: seq<Path>, times: map<Path, real>): (r: Result<Run, Failure>)
    ensures r.Ok? <==> Contains(prefix, TaskToken) && AllTimed(prefix, files, times)
    ensures !Contains(prefix, TaskToken) ==> r == Err(NoTaskEntity(prefix))
    ensures r.Err? && Contains(prefix, TaskToken) ==>
      exists f :: f in files && InRun(prefix, f) && Sidecar(f) !in times && r.error == NoEchoTime(Sidecar(f))
    ensures r.Ok? ==> r.value.prefix == prefix
    ensures r.Ok? ==> ParsePrefix(prefix) == Ok(RunName(r.value.sub, r.value.ses, r.value.task))
    ensures r.Ok? ==> IsRunRow(r.value.echoImages, r.value.echoTimes, prefix, files, times)
    ensures r.Ok? ==> |r.value.echoImages| == |RunMembers(prefix, files)|
  {
    var name :- ParsePrefix(prefix);
    var es :- EchoesOf(prefix, files, times);
    RowOfEchoes(es, prefix, files, times);
    Ok(Run(name.sub, name.ses, prefix, name.task, Images(es), Times(es)))
  }

  // ---------------------------------------------------------------------
  // The runs table (lines 13-37 and 39-63).

  /** One row per prefix, in the order of `ps`; the first run that cannot
      be gathered ends the loop. */
  function RunsOf(ps: seq<string>, files: seq<Path>, times: map<Path, real>): Result<seq<Run>, Failure> {
    MapAll(ps, p => RunOf(p, files, times))
  }

  /** A file the loop can handle: its name has an echo entity, its prefix
      a task entity, and its sidecar an echo time. */
  predicate Gatherable(f: Path, times: map<Path, real>) {
    match EchoPrefix(Basename(f))
    case None => false
    case Some(p) => Contains(p, TaskToken) && Sidecar(f) in times
  }

  lemma RunsOfGatherable(ps: seq<string>, files: seq<Path>, times: map<Path, real>)
    requires forall f :: f in files ==> Gatherable(f, times)
    requires forall p :: p in ps ==> exists f :: f in files && InRun(p, f)
    ensures RunsOf(ps, files, times).Ok?
  {
    forall i | 0 <= i < |ps| ensures RunOf(ps[i], files, times).Ok? {
      assert ps[i] in ps;
      var f :| f in files && InRun(ps[i], f);
      assert Gatherable(f, times);
      assert forall g :: g in files && InRun(ps[i], g) ==> Gatherable(g, times);
    }
  }

  lemma GatherableOfRuns(ps: seq<string>, files: seq<Path>, times: map<Path, real>, f: Path)
    requires RunsOf(ps, files, times).Ok?
    requires f in files
    requires EchoPrefix(Basename(f)).Some? && EchoPrefix(Basename(f)).value in ps
    ensures Gatherable(f, times)
  {
    var p := EchoPrefix(Basename(f)).value;
    var i :| 0 <= i < |ps| && ps[i] == p;
    assert RunOf(ps[i], files, times).Ok?;
    assert InRun(p, f);
  }

  predicate DistinctPrefixes(runs: seq<Run>) {
    forall i, j :: 0 <= i < j < |runs| ==> runs[i].prefix != runs[j].prefix
  }

  /** The runs table of `files`: distinct prefixes, no run without an image,
      every image in the run of its own prefix, and each row gathered as
      `IsRunRow` says. */
  ghost predicate IsRunsTable(runs: seq<Run>, files: seq<Path>, times: map<Path, real>) {
    && DistinctPrefixes(runs)
    && (forall i :: 0 <= i < |runs| ==> runs[i].echoImages != [])
    && (forall f :: f in files ==> exists i :: 0 <= i < |runs| && InRun(runs[i].prefix, f))
    && (forall i :: 0 <= i < |runs| ==>
          IsRunRow(runs[i].echoImages, runs[i].echoTimes, runs[i].prefix, files, times))
  }

  lemma RowsOfRuns(ps: seq<string>, files: seq<Path>, times: map<Path, real>)
    requires RunsOf(ps, files, times).Ok?
    ensures var runs := RunsOf(ps, files, times).value;
      && |runs| == |ps|
      && (forall i :: 0 <= i < |runs| ==> runs[i].prefix == ps[i])
      && (forall i :: 0 <= i < |runs| ==>
            IsRunRow(runs[i].echoImages, runs[i].echoTimes, runs[i].prefix, files, times))
  {
    var runs := RunsOf(ps, files, times).value;
    forall i | 0 <= i < |runs|
      ensures runs[i].prefix == ps[i]
      ensures IsRunRow(runs[i].echoImages, runs[i].echoTimes, runs[i].prefix, files, times)
    {
      assert RunOf(ps[i], files, times) == Ok(runs[i]);
    }
  }

  /** Some image of `files` belongs to run `r`. */
  ghost predicate RunHasImage(r: Run, files: seq<Path>) {
    exists f :: f in files && InRun(r.prefix, f)
  }

  /** Runs whose prefixes are the distinct prefixes of `files` cover
      `files`, and none of them is empty. */
  lemma RunsCoverFiles(runs: seq<Run>, ps: seq<string>, files: seq<Path>)
    requires Distinct(ps)
    requires forall f :: f in files ==> EchoPrefix(Basename(f)).Some?
    requires forall p :: p in ps <==> exists f :: f in files && EchoPrefix(Basename(f)) == Some(p)
    requires |runs| == |ps| && forall i :: 0 <= i < |runs| ==> runs[i].prefix == ps[i]
    ensures DistinctPrefixes(runs)
    ensures forall i :: 0 <= i < |runs| ==> RunHasImage(runs[i], files)
    ensures forall f :: f in files ==> exists i :: 0 <= i < |runs| && InRun(runs[i].prefix, f)
  {
    RunsDistinct(runs, ps);
    EveryRunNotEmpty(runs, ps, files);
    EveryFileHasRun(runs, ps, files);
  }

  lemma RunsDistinct(runs: seq<Run>, ps: seq<string>)
    requires Distinct(ps)
    requires |runs| == |ps| && forall i :: 0 <= i < |runs| ==> runs[i].prefix == ps[i]
    ensures DistinctPrefixes(runs)
  {
    forall i, j | 0 <= i < j < |runs| ensures runs[i].prefix != runs[j].prefix {
      assert ps[i] != ps[j];
    }
  }

  lemma EveryRunNotEmpty(runs: seq<Run>, ps: seq<string>, files: seq<Path>)
    requires forall p :: p in ps <==> exists f :: f in files && EchoPrefix(Basename(f)) == Some(p)
    requires |runs| == |ps| && forall i :: 0 <= i < |runs| ==> runs[i].prefix == ps[i]
    ensures forall i :: 0 <= i < |runs| ==> RunHasImage(runs[i], files)
  {
    forall i | 0 <= i < |runs| ensures RunHasImage(runs[i], files) {
      assert runs[i].prefix == ps[i] && ps[i] in ps;
      RunNotEmpty(runs[i].prefix, ps, files);
    }
  }

  lemma EveryFileHasRun(runs: seq<Run>, ps: seq<string>, files: seq<Path>)
    requires forall f :: f in files ==> EchoPrefix(Basename(f)).Some?
    requires forall p :: p in ps <==> exists f :: f in files && EchoPrefix(Basename(f)) == Some(p)
    requires |runs| == |ps| && forall i :: 0 <= i < |runs| ==> runs[i].prefix == ps[i]
    ensures forall f :: f in files ==> exists i :: 0 <= i < |runs| && InRun(runs[i].prefix, f)
  {
    forall f | f in files ensures exists i :: 0 <= i < |runs| && InRun(runs[i].prefix, f) {
      FileHasRun(runs, ps, files, f);
    }
  }

  lemma RunNotEmpty(p: string, ps: seq<string>, files: seq<Path>)
    requires p in ps
    requires forall p :: p in ps <==> exists f :: f in files && EchoPrefix(Basename(f)) == Some(p)
    ensures exists f :: f in files && InRun(p, f)
  {
    var f :| f in files && EchoPrefix(Basename(f)) == Some(p);
    assert InRun(p, f);
  }

  lemma FileHasRun(runs: seq<Run>, ps: seq<string>, files: seq<Path>, f: Path)
    requires f in files
    requires EchoPrefix(Basename(f)).Some?
    requires forall p :: p in ps <==> exists f :: f in files && EchoPrefix(Basename(f)) == Some(p)
    requires |runs| == |ps| && forall i :: 0 <= i < |runs| ==> runs[i].prefix == ps[i]
    ensures exists i :: 0 <= i < |runs| && InRun(runs[i].prefix, f)
  {
    var p := EchoPrefix(Basename(f)).value;
    assert p in ps;
    var i :| 0 <= i < |ps| && ps[i] == p;
    assert InRun(runs[i].prefix, f);
  }

  lemma PrefixFacts(files: seq<Path>, ps: seq<string>)
    requires RunPrefixes(files) == Ok(ps)
    ensures Distinct(ps)
    ensures forall f :: f in files ==> EchoPrefix(Basename(f)).Some?
    ensures forall p :: p in ps <==> exists f :: f in files && EchoPrefix(Basename(f)) == Some(p)
  {
    forall f | f in files ensures EchoPrefix(Basename(f)).Some? {
      var k :| 0 <= k < |files| && files[k] == f;
    }
  }

  lemma GroupedRuns(ps: seq<string>, files: seq<Path>, times: map<Path, real>)
    requires RunPrefixes(files) == Ok(ps)
    requires RunsOf(ps, files, times).Ok?
    ensures IsRunsTable(RunsOf(ps, files, times).value, files, times)
  {
    var runs := RunsOf(ps, files, times).value;
    RowsOfRuns(ps, files, times);
    PrefixFacts(files, ps);
    AssembleTable(runs, ps, files, times);
  }

  /** Rows built one per distinct prefix of the files form a runs table. */
  lemma AssembleTable(runs: seq<Run>, ps: seq<string>, files: seq<Path>, times: map<Path, real>)
    requires Distinct(ps)
    requires forall f :: f in files ==> EchoPrefix(Basename(f)).Some?
    requires forall p :: p in ps <==> exists f :: f in files && EchoPrefix(Basename(f)) == Some(p)
    requires |runs| == |ps| && forall i :: 0 <= i < |runs| ==> runs[i].prefix == ps[i]
    requires forall i :: 0 <= i < |runs| ==>
      IsRunRow(runs[i].echoImages, runs[i].echoTimes, runs[i].prefix, files, times)
    ensures IsRunsTable(runs, files, times)
  {
    RunsCoverFiles(runs, ps, files);
    forall i | 0 <= i < |runs| ensures runs[i].echoImages != [] {
      NonEmptyRow(runs[i], files, times);
    }
  }

  lemma NonEmptyRow(run: Run, files: seq<Path>, times: map<Path, real>)
    requires IsRunRow(run.echoImages, run.echoTimes, run.prefix, files, times)
    requires RunHasImage(run, files)
    ensures run.echoImages != []
  {
    var f :| f in files && InRun(run.prefix, f);
    assert f in run.echoImages;
  }

  /** The runs table of a list of candidate images: one run per distinct
      prefix, in order of first appearance. */
  function GroupRuns(files: seq<Path>, times: map<Path, real>): (r: Result<seq<Run>, Failure>)
    ensures r.Ok? <==> forall f :: f in files ==> Gatherable(f, times)
    ensures r.Err? ==> exists f :: f in files && !Gatherable(f, times)
    ensures r.Err? && r.error.NoEchoEntity? ==> exists f :: f in files && EchoPrefix(Basename(f)).None?
    ensures r.Err? ==> r.error.NoEchoEntity? || r.error.NoTaskEntity? || r.error.NoEchoTime?
    ensures r.Ok? ==> IsRunsTable(r.value, files, times)
  {
    match RunPrefixes(files)
    case Err(e) =>
      assert exists f :: f in files && !Gatherable(f, times) by {
        var i :| 0 <= i < |files| && EchoPrefix(Basename(files[i])).None?;
        assert files[i] in files;
      }
      Err(e)
    case Ok(ps) =>
      var r := RunsOf(ps, files, times);
      if r.Ok? then
        AllGatherable(ps, files, times);
        GroupedRuns(ps, files, times);
        r
      else
        assert exists f :: f in files && !Gatherable(f, times) by {
          if forall f :: f in files ==> Gatherable(f, times) {
            RunsOfGatherable(ps, files, times);
          }
        }
        RunsOfErrors(ps, files, times);
        r
  }

  /** A run fails only for a missing task entity or echo time. */
  lemma RunsOfErrors(ps: seq<string>, files: seq<Path>, times: map<Path, real>)
    requires RunsOf(ps, files, times).Err?
    ensures RunsOf(ps, files, times).error.NoTaskEntity? || RunsOf(ps, files, times).error.NoEchoTime?
  {
    var e := RunsOf(ps, files, times).error;
    var i :| 0 <= i < |ps| && RunOf(ps[i], files, times) == Err(e);
  }

  lemma AllGatherable(ps: seq<string>, files: seq<Path>, times: map<Path, real>)
    requires RunPrefixes(files) == Ok(ps)
    requires RunsOf(ps, files, times).Ok?
    ensures forall f :: f in files ==> Gatherable(f, times)
  {
    forall f | f in files ensures Gatherable(f, times) {
      var i :| 0 <= i < |files| && files[i] == f;
      assert EchoPrefix(Basename(f)).Some?;
      GatherableOfRuns(ps, files, times, f);
    }
  }

  /** Each candidate image lies in exactly one run of the table. */
  lemma ImageInOneRun(runs: seq<Run>, files: seq<Path>, times: map<Path, real>, f: Path)
    requires IsRunsTable(runs, files, times)
    requires f in files
    ensures exists i :: 0 <= i < |runs| && f in runs[i].echoImages
    ensures forall i, j ::
      0 <= i < |runs| && 0 <= j < |runs| && f in runs[i].echoImages && f in runs[j].echoImages ==> i == j
  {
    ImageInSomeRun(runs, files, times, f);
    ImageInAtMostOneRun(runs, files, times, f);
  }

  lemma ImageInSomeRun(runs: seq<Run>, files: seq<Path>, times: map<Path, real>, f: Path)
    requires forall i :: 0 <= i < |runs| ==>
               IsRunRow(runs[i].echoImages, runs[i].echoTimes, runs[i].prefix, files, times)
    requires f in files && exists i :: 0 <= i < |runs| && InRun(runs[i].prefix, f)
    ensures exists i :: 0 <= i < |runs| && f in runs[i].echoImages
  {
    var i :| 0 <= i < |runs| && InRun(runs[i].prefix, f);
    ImageOfRun(runs[i], files, times, f);
  }

  lemma ImageInAtMostOneRun(runs: seq<Run>, files: seq<Path>, times: map<Path, real>, f: Path)
    requires DistinctPrefixes(runs)
    requires forall i :: 0 <= i < |runs| ==>
               IsRunRow(runs[i].echoImages, runs[i].echoTimes, runs[i].prefix, files, times)
    ensures forall i, j ::
      0 <= i < |runs| && 0 <= j < |runs| && f in runs[i].echoImages && f in runs[j].echoImages ==> i == j
  {
    forall i, j | 0 <= i < |runs| && 0 <= j < |runs| && f in runs[i].echoImages && f in runs[j].echoImages
      ensures i == j
    {
      ImageOfRun(runs[i], files, times, f);
      ImageOfRun(runs[j], files, times, f);
      SamePrefixSameRun(runs, i, j);
    }
  }

  lemma SamePrefixSameRun(runs: seq<Run>, i: int, j: int)
    requires DistinctPrefixes(runs)
    requires 0 <= i < |runs| && 0 <= j < |runs| && runs[i].prefix == runs[j].prefix
    ensures i == j
  {
  }

  lemma ImageOfRun(run: Run, files: seq<Path>, times: map<Path, real>, f: Path)
    requires IsRunRow(run.echoImages, run.echoTimes, run.prefix, files, times)
    ensures f in run.echoImages <==> f in files && InRun(run.prefix, f)
  {
  }

  /** Every image the echo glob returns has an echo entity after the
      subject's own `sub-<sub>_`. */
  lemma EchoCandidatePrefixes(fs: FileSystem, inDir: Path, sub: string)
    ensures forall f :: f in EchoCandidates(fs, inDir, sub) ==>
      EchoPrefix(Basename(f)).Some? && IsPrefix(SubjectToken + sub + "_", EchoPrefix(Basename(f)).value)
  {
    forall f | f in EchoCandidates(fs, inDir, sub)
      ensures EchoPrefix(Basename(f)).Some? && IsPrefix(SubjectToken + sub + "_", EchoPrefix(Basename(f)).value)
    {
      EchoPatternHasPrefix(SubjectToken + sub, Basename(f));
    }
  }

  lemma RunPrefixesOfSubject(runs: seq<Run>, files: seq<Path>, times: map<Path, real>, stem: string)
    requires forall f :: f in files ==> EchoPrefix(Basename(f)).Some? && IsPrefix(stem, EchoPrefix(Basename(f)).value)
    requires IsRunsTable(runs, files, times)
    ensures forall i :: 0 <= i < |runs| ==> IsPrefix(stem, runs[i].prefix)
  {
    forall i | 0 <= i < |runs| ensures IsPrefix(stem, runs[i].prefix) {
      var f := runs[i].echoImages[0];
      ImageOfRun(runs[i], files, times, f);
    }
  }

  /** Lines 39-63: the runs table of one subject's multi-echo images. The
      glob guarantees an echo entity, so the loop can fail only on a
      prefix without a task entity or an image without an echo time. */
  function FindMultiechoData(fs: FileSystem, inDir: Path, sub: string, times: map<Path, real>): (r: Result<seq<Run>, Failure>)
    ensures r.Ok? <==> forall f :: f in EchoCandidates(fs, inDir, sub) ==> Gatherable(f, times)
    ensures r.Err? ==> r.error.NoTaskEntity? || r.error.NoEchoTime?
    ensures r.Ok? ==> IsRunsTable(r.value, EchoCandidates(fs, inDir, sub), times)
    ensures r.Ok? ==> forall i :: 0 <= i < |r.value| ==> IsPrefix(SubjectToken + sub + "_", r.value[i].prefix)
  {
    var files := EchoCandidates(fs, inDir, sub);
    EchoCandidatePrefixes(fs, inDir, sub);
    var r := GroupRuns(files, times);
    if r.Ok? then
      RunPrefixesOfSubject(r.value, files, times, SubjectToken + sub + "_");
      r
    else
      r
  }

  /** Lines 13-37: the same table built from the images `find_func_data`
      globs for; an image without an echo entity ends it with
      `NoEchoEntity`. */
  function FindFuncData(fs: FileSystem, inDir: Path, sub: string, times: map<Path, real>): (r: Result<seq<Run>, Failure>)
    ensures r.Ok? <==> forall f :: f in FuncCandidates(fs, inDir, sub) ==> Gatherable(f, times)
    ensures r.Err? && r.error.NoEchoEntity? ==>
      exists f :: f in FuncCandidates(fs, inDir, sub) && !Contains(Basename(f), EchoToken)
    ensures r.Ok? ==> IsRunsTable(r.value, FuncCandidates(fs, inDir, sub), times)
  {
    GroupRuns(FuncCandidates(fs, inDir, sub), times)
  }

  // ---------------------------------------------------------------------
  // The table as written (lines 13-37 and 39-63).

  /** A row as lines 56-60 build it: the fields `ParsePrefix` reads, every
      candidate that mentions the prefix, sorted as strings, and the echo
      times of those images sorted on their own. */
  predicate IsRowAsWritten(run: Run, files: seq<Path>, times: map<Path, real>) {
    && ParsePrefix(run.prefix) == Ok(RunName(run.sub, run.ses, run.task))
    && multiset(run.echoImages) == multiset(Filter(files, Mentions(run.prefix)))
    && SortedBy(run.echoImages, LexLe)
    && LookupEchoTimes(run.echoImages, times).Ok?
    && multiset(run.echoTimes) == multiset(LookupEchoTimes(run.echoImages, times).value)
    && SortedBy(run.echoTimes, RealLe)
  }

  /** The loop as written over the prefixes, in the order of `ps`. */
  function RunsAsWritten(ps: seq<string>, files: seq<Path>, times: map<Path, real>): Result<seq<Run>, Failure> {
    MapAll(ps, p => RunAsWritten(p, files, times))
  }

  /** The table as the source builds it: one row per distinct prefix, in
      the order `GroupRuns` uses, each row gathered by substring with its
      times sorted apart from its images. It fails for exactly the inputs
      the corrected table fails for. */
  function GroupRunsAsWritten(files: seq<Path>, times: map<Path, real>): (r: Result<seq<Run>, Failure>)
    ensures r.Ok? <==> forall f :: f in files ==> Gatherable(f, times)
    ensures r.Err? ==> r.error.NoEchoEntity? || r.error.NoTaskEntity? || r.error.NoEchoTime?
    ensures r.Ok? ==> DistinctPrefixes(r.value)
    ensures r.Ok? ==> forall f :: f in files ==> exists i :: 0 <= i < |r.value| && InRun(r.value[i].prefix, f)
    ensures r.Ok? ==> forall i :: 0 <= i < |r.value| ==> IsRowAsWritten(r.value[i], files, times)
  {
    match RunPrefixes(files)
    case Err(e) =>
      assert exists f :: f in files && !Gatherable(f, times) by {
        var i :| 0 <= i < |files| && EchoPrefix(Basename(files[i])).None?;
        assert files[i] in files;
      }
      Err(e)
    case Ok(ps) =>
      var r := RunsAsWritten(ps, files, times);
      AsWrittenGatherable(ps, files, times);
      if r.Ok? then
        AsWrittenRows(ps, files, times);
        AsWrittenCovers(ps, files, times);
        r
      else
        AsWrittenErrors(ps, files, times);
        r
  }

  /** Each file's own prefix is a substring of its path. */
  lemma InRunMentions(p: string, f: Path)
    requires InRun(p, f)
    ensures Contains(f, p)
  {
    var b := Basename(f);
    var k := |f| - |b|;
    assert f[k..] == b;
    assert f[k..k + |p|] == b[..|p|];
    assert OccursAt(f, p, k);
  }

  lemma AsWrittenGatherable(ps: seq<string>, files: seq<Path>, times: map<Path, real>)
    requires RunPrefixes(files) == Ok(ps)
    ensures RunsAsWritten(ps, files, times).Ok? <==> forall f :: f in files ==> Gatherable(f, times)
  {
    PrefixFacts(files, ps);
    if RunsAsWritten(ps, files, times).Ok? {
      forall f | f in files ensures Gatherable(f, times) {
        var p := EchoPrefix(Basename(f)).value;
        assert p in ps;
        var i :| 0 <= i < |ps| && ps[i] == p;
        assert RunAsWritten(p, files, times).Ok?;
        GatherableByMention(p, f, files, times);
      }
    } else {
      var i :| 0 <= i < |ps| && !RunAsWritten(ps[i], files, times).Ok?;
      assert ps[i] in ps;
      UngatherableByMention(ps[i], files, times);
    }
  }

  lemma GatherableByMention(p: string, f: Path, files: seq<Path>, times: map<Path, real>)
    requires f in files && InRun(p, f)
    requires RunAsWritten(p, files, times).Ok?
    ensures Gatherable(f, times)
  {
    InRunMentions(p, f);
  }

  lemma UngatherableByMention(p: string, files: seq<Path>, times: map<Path, real>)
    requires exists g :: g in files && EchoPrefix(Basename(g)) == Some(p)
    requires RunAsWritten(p, files, times).Err?
    ensures exists f :: f in files && !Gatherable(f, times)
  {
    var g :| g in files && EchoPrefix(Basename(g)) == Some(p);
    if Contains(p, TaskToken) {
      var f :| f in files && Contains(f, p) && Sidecar(f) !in times;
      assert !Gatherable(f, times);
    } else {
      assert !Gatherable(g, times);
    }
  }

  lemma AsWrittenErrors(ps: seq<string>, files: seq<Path>, times: map<Path, real>)
    requires RunsAsWritten(ps, files, times).Err?
    ensures RunsAsWritten(ps, files, times).error.NoTaskEntity? || RunsAsWritten(ps, files, times).error.NoEchoTime?
  {
    var e := RunsAsWritten(ps, files, times).error;
    var i :| 0 <= i < |ps| && RunAsWritten(ps[i], files, times) == Err(e);
  }

  lemma AsWrittenRows(ps: seq<string>, files: seq<Path>, times: map<Path, real>)
    requires RunPrefixes(files) == Ok(ps)
    requires RunsAsWritten(ps, files, times).Ok?
    ensures var runs := RunsAsWritten(ps, files, times).value;
      && |runs| == |ps|
      && (forall i :: 0 <= i < |runs| ==> runs[i].prefix == ps[i])
      && DistinctPrefixes(runs)
      && (forall i :: 0 <= i < |runs| ==> IsRowAsWritten(runs[i], files, times))
  {
    var runs := RunsAsWritten(ps, files, times).value;
    PrefixFacts(files, ps);
    forall i | 0 <= i < |runs| ensures runs[i].prefix == ps[i] && IsRowAsWritten(runs[i], files, times) {
      assert RunAsWritten(ps[i], files, times) == Ok(runs[i]);
    }
  }

  lemma AsWrittenCovers(ps: seq<string>, files: seq<Path>, times: map<Path, real>)
    requires RunPrefixes(files) == Ok(ps)
    requires RunsAsWritten(ps, files, times).Ok?
    ensures var runs := RunsAsWritten(ps, files, times).value;
      forall f :: f in files ==> exists i :: 0 <= i < |runs| && InRun(runs[i].prefix, f)
  {
    var runs := RunsAsWritten(ps, files, times).value;
    PrefixFacts(files, ps);
    AsWrittenRows(ps, files, times);
    forall f | f in files ensures exists i :: 0 <= i < |runs| && InRun(runs[i].prefix, f) {
      var p := EchoPrefix(Basename(f)).value;
      assert p in ps;
      var i :| 0 <= i < |ps| && ps[i] == p;
      assert InRun(runs[i].prefix, f);
    }
  }

  /** The two tables have the same rows in the same order, with the same
      prefix, subject, session and task: they differ only in the images
      and times each row holds. */
  lemma TablesShareRuns(files: seq<Path>, times: map<Path, real>)
    ensures GroupRunsAsWritten(files, times).Ok? <==> GroupRuns(files, times).Ok?
    ensures GroupRuns(files, times).Ok? ==>
      var a := GroupRunsAsWritten(files, times).value;
      var c := GroupRuns(files, times).value;
      && |a| == |c|
      && forall i :: 0 <= i < |a| ==>
           a[i].prefix == c[i].prefix && a[i].sub == c[i].sub && a[i].ses == c[i].ses && a[i].task == c[i].task
  {
    if GroupRuns(files, times).Ok? {
      var ps := RunPrefixes(files).value;
      assert GroupRunsAsWritten(files, times) == RunsAsWritten(ps, files, times);
      assert GroupRuns(files, times) == RunsOf(ps, files, times);
      SameRunFields(ps, files, times);
    }
  }

  lemma SameRunFields(ps: seq<string>, files: seq<Path>, times: map<Path, real>)
    requires RunsAsWritten(ps, files, times).Ok? && RunsOf(ps, files, times).Ok?
    ensures
      var a := RunsAsWritten(ps, files, times).value;
      var c := RunsOf(ps, files, times).value;
      && |a| == |c|
      && forall i :: 0 <= i < |a| ==>
           a[i].prefix == c[i].prefix && a[i].sub == c[i].sub && a[i].ses == c[i].ses && a[i].task == c[i].task
  {
    var a := RunsAsWritten(ps, files, times).value;
    var c := RunsOf(ps, files, times).value;
    forall i | 0 <= i < |a|
      ensures a[i].prefix == c[i].prefix && a[i].sub == c[i].sub && a[i].ses == c[i].ses && a[i].task == c[i].task
    {
      assert RunAsWritten(ps[i], files, times) == Ok(a[i]);
      assert RunOf(ps[i], files, times) == Ok(c[i]);
    }
  }

  /** Lines 39-63 as written, over the multi-echo candidates. */
  function FindMultiechoDataAsWritten(fs: FileSystem, inDir: Path, sub: string, times: map<Path, real>): (r: Result<seq<Run>, Failure>)
    ensures r.Ok? <==> forall f :: f in EchoCandidates(fs, inDir, sub) ==> Gatherable(f, times)
    ensures r.Ok? ==> forall i :: 0 <= i < |r.value| ==> IsRowAsWritten(r.value[i], EchoCandidates(fs, inDir, sub), times)
    ensures r.Ok? ==> forall f :: f in EchoCandidates(fs, inDir, sub) ==>
      exists i :: 0 <= i < |r.value| && InRun(r.value[i].prefix, f)
  {
    GroupRunsAsWritten(EchoCandidates(fs, inDir, sub), times)
  }

  /** Lines 13-37 as written, over the functional candidates. */
  function FindFuncDataAsWritten(fs: FileSystem, inDir: Path, sub: string, times: map<Path, real>): (r: Result<seq<Run>, Failure>)
    ensures r.Ok? <==> forall f :: f in FuncCandidates(fs, inDir, sub) ==> Gatherable(f, times)
    ensures r.Ok? ==> forall i :: 0 <= i < |r.value| ==> IsRowAsWritten(r.value[i], FuncCandidates(fs, inDir, sub), times)
    ensures r.Ok? ==> forall f :: f in FuncCandidates(fs, inDir, sub) ==>
      exists i :: 0 <= i < |r.value| && InRun(r.value[i].prefix, f)
  {
    GroupRunsAsWritten(FuncCandidates(fs, inDir, sub), times)
  }

  // ---------------------------------------------------------------------
  // Where the grouping as written goes wrong.

  lemma LabelsNoSlash(sub: string, task: string)
    requires IsLabel(sub) && IsLabel(task)
    ensures NoSlash(SubjectToken + sub + TaskToken + task)
  {
    var p := SubjectToken + sub + TaskToken + task;
    forall i | 0 <= i < |p| ensures p[i] != '/' {
      if 4 <= i < 4 + |sub| {
        assert p[i] == sub[i - 4];
      } else if 10 + |sub| <= i {
        assert p[i] == task[i - 10 - |sub|];
      }
    }
  }

  /** The images of a two-file directory whose names start with `p` and
      with `p + extra`, `extra` a label, before the echo entity. */
  lemma TwoTaskNames(sub: string, task: string, extra: string, rest: string)
    requires IsLabel(sub) && IsLabel(task) && IsLabel(extra)
    requires NoSlash(rest) && !Contains(rest, EchoToken)
    ensures
      var p := SubjectToken + sub + TaskToken + task;
      && Contains(p, TaskToken)
      && Contains(p + EchoToken + rest, p)
      && Contains(p + extra + EchoToken + rest, p)
      && EchoPrefix(Basename(p + EchoToken + rest)) == Some(p)
      && EchoPrefix(Basename(p + extra + EchoToken + rest)) == Some(p + extra)
      && p + extra != p
  {
    var p := SubjectToken + sub + TaskToken + task;
    var own := p + EchoToken + rest;
    var other := p + extra + EchoToken + rest;
    assert p[|sub| + 4..|sub| + 10] == TaskToken;
    assert OccursAt(p, TaskToken, |sub| + 4);
    assert OccursAt(own, p, 0) && OccursAt(other, p, 0);
    LabelsNoSlash(sub, task);
    LabelsNoSlash(sub, task + extra);
    assert p + extra == SubjectToken + sub + TaskToken + (task + extra);
    assert NoSlash(EchoToken + rest);
    assert NoSlash(own) && NoSlash(other);
    BasenameOfName(own);
    BasenameOfName(other);
    EchoPrefixOfName(p, rest);
    EchoPrefixOfName(p + extra, rest);
    assert |p + extra| > |p|;
  }

  /** An image that contains a run's prefix without having it as its own
      prefix joins that run as written, and stays out of it when grouping
      by exact prefix. */
  lemma SubstringGroupingAdmits(p: string, own: Path, other: Path, times: map<Path, real>)
    requires Contains(p, TaskToken)
    requires Contains(own, p) && Contains(other, p)
    requires InRun(p, own) && !InRun(p, other)
    requires Sidecar(own) in times && Sidecar(other) in times
    ensures RunAsWritten(p, [own, other], times).Ok?
    ensures other in RunAsWritten(p, [own, other], times).value.echoImages
    ensures RunOf(p, [own, other], times).Ok?
    ensures other !in RunOf(p, [own, other], times).value.echoImages
  {
    SubstringAdmits(p, own, other, times);
    ExactPrefixExcludes(p, own, other, times);
  }

  lemma SubstringAdmits(p: string, own: Path, other: Path, times: map<Path, real>)
    requires Contains(p, TaskToken)
    requires Contains(own, p) && Contains(other, p)
    requires Sidecar(own) in times && Sidecar(other) in times
    ensures RunAsWritten(p, [own, other], times).Ok?
    ensures other in RunAsWritten(p, [own, other], times).value.echoImages
  {
    var files := [own, other];
    assert forall f :: f in files && Contains(f, p) ==> Sidecar(f) in times;
  }

  lemma ExactPrefixExcludes(p: string, own: Path, other: Path, times: map<Path, real>)
    requires Contains(p, TaskToken)
    requires InRun(p, own) && !InRun(p, other)
    requires Sidecar(own) in times && Sidecar(other) in times
    ensures RunOf(p, [own, other], times).Ok?
    ensures other !in RunOf(p, [own, other], times).value.echoImages
  {
    var files := [own, other];
    forall f | f in files && InRun(p, f) ensures Sidecar(f) in times {
      assert f == own || f == other;
    }
    RunOfImages(p, files, times, other);
  }

  lemma RunOfImages(p: string, files: seq<Path>, times: map<Path, real>, f: Path)
    requires RunOf(p, files, times).Ok?
    ensures f in RunOf(p, files, times).value.echoImages <==> f in files && InRun(p, f)
  {
    ImageOfRun(RunOf(p, files, times).value, files, times, f);
  }

  /** Two tasks whose labels extend one another (`rest`, `restful`): the
      substring test of lines 56-57 puts the other task's image into this
      run, although that image's own prefix is different; grouping by exact
      prefix leaves it out. */
  lemma SubstringGroupingMixesTasks(sub: string, task: string, extra: string, rest: string, times: map<Path, real>)
    requires IsLabel(sub) && IsLabel(task) && IsLabel(extra)
    requires NoSlash(rest) && !Contains(rest, EchoToken)
    requires Sidecar(SubjectToken + sub + TaskToken + task + EchoToken + rest) in times
    requires Sidecar(SubjectToken + sub + TaskToken + task + extra + EchoToken + rest) in times
    ensures
      var p := SubjectToken + sub + TaskToken + task;
      var other := p + extra + EchoToken + rest;
      var files := [p + EchoToken + rest, other];
      && RunAsWritten(p, files, times).Ok?
      && other in RunAsWritten(p, files, times).value.echoImages
      && EchoPrefix(Basename(other)) == Some(p + extra)
      && RunOf(p, files, times).Ok?
      && other !in RunOf(p, files, times).value.echoImages
  {
    var p := SubjectToken + sub + TaskToken + task;
    TwoTaskNames(sub, task, extra, rest);
    SubstringGroupingAdmits(p, p + EchoToken + rest, p + extra + EchoToken + rest, times);
  }

  /** Two distinct values of a list of at most two, sorted, where the second
      does not come before the first, are the list. */
  lemma PairInOrder<T>(s: seq<T>, a: T, b: T, le: (T, T) -> bool)
    requires |s| <= 2 && a in s && b in s && a != b
    requires SortedBy(s, le) && !le(b, a)
    ensures s == [a, b]
  {
  }

  /** The run as written sorts its images as strings and its echo times as
      numbers, each on its own: of two images whose string order is the
      reverse of their echo-time order, the first is paired with the other
      one's time. */
  lemma SeparateSortsMisalignTimes(prefix: string, a: Path, b: Path, times: map<Path, real>)
    requires Contains(prefix, TaskToken)
    requires Contains(a, prefix) && Contains(b, prefix)
    requires LexLe(a, b) && a != b
    requires Sidecar(a) in times && Sidecar(b) in times
    requires times[Sidecar(b)] < times[Sidecar(a)]
    ensures
      var r := RunAsWritten(prefix, [a, b], times);
      && r.Ok?
      && r.value.echoImages == [a, b]
      && r.value.echoTimes == [times[Sidecar(b)], times[Sidecar(a)]]
  {
    var files := [a, b];
    assert forall f :: f in files && Contains(f, prefix) ==> Sidecar(f) in times;
    var r := RunAsWritten(prefix, files, times);
    var images := r.value.echoImages;
    var ts := r.value.echoTimes;
    assert !LexLe(b, a) by {
      if LexLe(b, a) {
        LexAntisymmetric(a, b);
      }
    }
    PairInOrder(images, a, b, LexLe);
    var ta, tb := times[Sidecar(a)], times[Sidecar(b)];
    assert ta in ts by {
      assert images[0] == a;
    }
    assert tb in ts by {
      assert images[1] == b;
    }
    PairInOrder(ts, tb, ta, RealLe);
  }
  /** With ten or more echoes, `_echo-10` sorts before `_echo-2` as a
      string. */
  lemma EchoTenSortsBeforeTwo(p: string, rest: string)
    ensures LexLe(p + "_echo-10" + rest, p + "_echo-2" + rest)
    ensures p + "_echo-10" + rest != p + "_echo-2" + rest
  {
    var c := p + EchoToken;
    var x := "10" + rest;
    var y := "2" + rest;
    assert p + "_echo-10" + rest == c + x;
    assert p + "_echo-2" + rest == c + y;
    LexCommonPrefix(c, x, y);
    assert x[0] == '1' && y[0] == '2';
    assert (c + x)[|c|] != (c + y)[|c|];
  }

  /** Echo 10 of a run recorded after echo 2 is paired, as written, with
      echo 2's time. */
  lemma TenthEchoGetsSecondEchoTime(prefix: string, rest: string, times: map<Path, real>)
    requires Contains(prefix, TaskToken)
    requires Sidecar(prefix + "_echo-10" + rest) in times && Sidecar(prefix + "_echo-2" + rest) in times
    requires times[Sidecar(prefix + "_echo-2" + rest)] < times[Sidecar(prefix + "_echo-10" + rest)]
    ensures
      var tenth := prefix + "_echo-10" + rest;
      var second := prefix + "_echo-2" + rest;
      var r := RunAsWritten(prefix, [tenth, second], times);
      && r.Ok?
      && r.value.echoImages == [tenth, second]
      && r.value.echoTimes == [times[Sidecar(second)], times[Sidecar(tenth)]]
  {
    var tenth := prefix + "_echo-10" + rest;
    var second := prefix + "_echo-2" + rest;
    assert OccursAt(tenth, prefix, 0) && OccursAt(second, prefix, 0);
    EchoTenSortsBeforeTwo(prefix, rest);
    SeparateSortsMisalignTimes(prefix, tenth, second, times);
  }
}
