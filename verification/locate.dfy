/** The derivatives a run needs besides its echo images, found by the file
    names fmriprep and tedana write (fmriprep_wf.py lines 66-119): tedana's
    optimally combined images, the anatomical transforms keyed by their
    target space, the BOLD-to-T1w transform, and the T1w image with its
    brain mask. */
module Locate {
  import opened Wrappers
  import opened Strings
  import opened Lists
  import opened Paths
  import opened Failures

  // ---------------------------------------------------------------------
  // Tedana outputs (lines 67-75).

  const DefaultSpaces: seq<string> := ["Native", "T1w", "MNI152NLin6Asym"]
  const DefaultSuffix := "optcomDenoised_bold"
  /** The key the source stores the prefix under, in the same dictionary
      as the spaces. */
  const PrefixKey := "prefix"

  /** `{prefix}_space-{s}_desc-{suffix}.nii.gz`. */
  function TedanaOutputName(prefix: string, space: string, suffix: string): string {
    prefix + "_space-" + space + "_desc-" + suffix + ".nii.gz"
  }

  /** Reads the space back out of an output name with a known prefix and
      suffix. */
  function SpaceOfOutput(name: string, prefix: string, suffix: string): Option<string> {
    var head := prefix + "_space-";
    var tail := "_desc-" + suffix + ".nii.gz";
    if |head| + |tail| <= |name| && IsPrefix(head, name) && IsSuffix(tail, name)
    then Some(name[|head|..|name| - |tail|])
    else None
  }

  lemma SpaceOfOutputName(prefix: string, space: string, suffix: string)
    ensures SpaceOfOutput(TedanaOutputName(prefix, space, suffix), prefix, suffix) == Some(space)
  {
    var head := prefix + "_space-";
    var tail := "_desc-" + suffix + ".nii.gz";
    var name := TedanaOutputName(prefix, space, suffix);
    assert name == head + space + tail;
    assert name[..|head|] == head;
    assert name[|name| - |tail|..] == tail;
    assert name[|head|..|name| - |tail|] == space;
  }

  /** One output per space: every image found, or `None` for the source's
      `np.nan`, and the prefix. */
  datatype TedanaOutputs = TedanaOutputs(images: map<string, Option<Path>>, prefix: string)

  function SpaceImages(fs: FileSystem, inDir: Path, prefix: string, spaces: seq<string>, suffix: string): (m: map<string, Option<Path>>)
    ensures forall s :: s in m <==> s in spaces
    ensures forall s :: s in m ==>
      var f := Join(inDir, TedanaOutputName(prefix, s, suffix));
      m[s] == if fs.IsFile(f) then Some(f) else None
    decreases |spaces|
  {
    if spaces == [] then map[]
    else
      var s := spaces[|spaces| - 1];
      var f := Join(inDir, TedanaOutputName(prefix, s, suffix));
      assert spaces == spaces[..|spaces| - 1] + [s];
      SpaceImages(fs, inDir, prefix, spaces[..|spaces| - 1], suffix)[s := if fs.IsFile(f) then Some(f) else None]
  }

  /** `find_tedana_outputs`: a space called `prefix` is overwritten by the
      prefix itself, as in the source's single dictionary. */
  function FindTedanaOutputs(fs: FileSystem, inDir: Path, prefix: string, spaces: seq<string>, suffix: string): (r: TedanaOutputs)
    ensures r.prefix == prefix
    ensures forall s :: s in r.images <==> s in spaces && s != PrefixKey
    ensures forall s :: s in r.images ==>
      (r.images[s].Some? <==> fs.IsFile(Join(inDir, TedanaOutputName(prefix, s, suffix))))
    ensures forall s :: s in r.images && r.images[s].Some? ==>
      r.images[s].value == Join(inDir, TedanaOutputName(prefix, s, suffix))
  {
    TedanaOutputs(SpaceImages(fs, inDir, prefix, spaces, suffix) - {PrefixKey}, prefix)
  }

  /** Every image found names, in its own file name, the space it was
      filed under. */
  lemma TedanaOutputSpace(fs: FileSystem, inDir: Path, prefix: string, spaces: seq<string>, suffix: string, s: string)
    requires NoSlash(prefix) && NoSlash(suffix) && NoSlash(s)
    requires var r := FindTedanaOutputs(fs, inDir, prefix, spaces, suffix);
      s in r.images && r.images[s].Some?
    ensures SpaceOfOutput(Basename(FindTedanaOutputs(fs, inDir, prefix, spaces, suffix).images[s].value), prefix, suffix) == Some(s)
  {
    var name := TedanaOutputName(prefix, s, suffix);
    assert FindTedanaOutputs(fs, inDir, prefix, spaces, suffix).images[s].value == Join(inDir, name);
    SpaceOfJoinedOutput(inDir, prefix, s, suffix);
  }

  lemma SpaceOfJoinedOutput(inDir: Path, prefix: string, s: string, suffix: string)
    requires NoSlash(prefix) && NoSlash(suffix) && NoSlash(s)
    ensures SpaceOfOutput(Basename(Join(inDir, TedanaOutputName(prefix, s, suffix))), prefix, suffix) == Some(s)
  {
    TedanaNameNoSlash(prefix, s, suffix);
    BasenameOfJoin(inDir, TedanaOutputName(prefix, s, suffix));
    SpaceOfOutputName(prefix, s, suffix);
  }

  lemma TedanaNameNoSlash(prefix: string, s: string, suffix: string)
    requires NoSlash(prefix) && NoSlash(suffix) && NoSlash(s)
    ensures NoSlash(TedanaOutputName(prefix, s, suffix))
  {
    NoSlashConcat(prefix, "_space-");
    NoSlashConcat(prefix + "_space-", s);
    NoSlashConcat(prefix + "_space-" + s, "_desc-");
    NoSlashConcat(prefix + "_space-" + s + "_desc-", suffix);
    NoSlashConcat(prefix + "_space-" + s + "_desc-" + suffix, ".nii.gz");
  }

  // ---------------------------------------------------------------------
  // The target space of a transform (line 86).

  const ToToken := "to-"
  const ModeToken := "_mode"

  /** `v` is what the search for `to-`, a greedy group and `_mode`
      captures in `f`: the match starts at the first `to-`, and the group
      runs to the last `_mode`. */
  ghost predicate Captures(f: string, i: int, v: string) {
    && OccursAt(f, ToToken, i)
    && (forall k :: 0 <= k < i ==> !OccursAt(f, ToToken, k))
    && OccursAt(f, ModeToken, i + 3 + |v|)
    && (forall k :: i + 3 + |v| < k ==> !OccursAt(f, ModeToken, k))
    && v == f[i + 3..i + 3 + |v|]
  }

  function TargetSpace(f: string): (r: Option<string>)
    ensures r.Some? <==> exists i, j :: OccursAt(f, ToToken, i) && OccursAt(f, ModeToken, j) && i + 3 <= j
    ensures r.Some? ==> exists i :: Captures(f, i, r.value)
  {
    match IndexOf(f, ToToken)
    case None => None
    case Some(i) =>
      match LastIndexOf(f, ModeToken)
      case None => None
      case Some(j) =>
        if i + 3 <= j then
          assert Captures(f, i, f[i + 3..j]);
          Some(f[i + 3..j])
        else None
  }

  /** After a head without `to-`, the first `to-` is the one that follows
      it: `to-` cannot overlap itself. */
  lemma FirstTo(head: string, rest: string)
    requires !Contains(head, ToToken)
    ensures IndexOf(head + ToToken + rest, ToToken) == Some(|head|)
  {
    var f := head + ToToken + rest;
    var a := |head|;
    assert f[a..a + 3] == ToToken;
    forall k | 0 <= k < a ensures !OccursAt(f, ToToken, k) {
      if k + 3 <= a {
        assert f[k..k + 3] == head[k..k + 3];
        assert !OccursAt(head, ToToken, k);
      } else if k == a - 2 {
        Mismatch(f, ToToken, k, 2);
      } else {
        Mismatch(f, ToToken, k, 1);
      }
    }
    FirstOccurrence(f, ToToken, a);
  }

  /** Before a tail without `_mode`, the last `_mode` is the one in front
      of it: `_mode` cannot overlap itself. */
  lemma LastMode(init: string, tail: string)
    requires !Contains(tail, ModeToken)
    ensures LastIndexOf(init + ModeToken + tail, ModeToken) == Some(|init|)
  {
    var f := init + ModeToken + tail;
    var b := |init|;
    assert f[b..b + 5] == ModeToken;
    forall k | b < k ensures !OccursAt(f, ModeToken, k) {
      if k >= b + 5 {
        if k + 5 <= |f| {
          assert f[k..k + 5] == tail[k - b - 5..k - b];
          assert !OccursAt(tail, ModeToken, k - b - 5);
        }
      } else {
        Mismatch(f, ModeToken, k, 0);
      }
    }
    LastOccurrence(f, ModeToken, b);
  }

  /** The capture of a name built around one `to-` and one `_mode`. */
  lemma TargetSpaceOfName(head: string, space: string, tail: string)
    requires !Contains(head, ToToken) && !Contains(tail, ModeToken)
    ensures TargetSpace(head + ToToken + space + ModeToken + tail) == Some(space)
  {
    var init := head + ToToken + space;
    var f := init + ModeToken + tail;
    assert f == head + ToToken + (space + ModeToken + tail);
    FirstTo(head, space + ModeToken + tail);
    LastMode(init, tail);
    assert f[|head| + 3..|init|] == space;
    TargetSpaceBetween(f, |head|, |init|);
  }

  lemma TargetSpaceBetween(f: string, a: nat, b: nat)
    requires IndexOf(f, ToToken) == Some(a) && LastIndexOf(f, ModeToken) == Some(b)
    requires a + 3 <= b
    ensures TargetSpace(f) == Some(f[a + 3..b])
  {
  }

  /** A `to-` in the directory part of the path starts the match there, so
      the key captured from the full path holds a `/` and is not the
      space; the key captured from the file name is. */
  lemma DirectoryTokenCapturesPath(dir: Path, head: string, space: string, tail: string)
    requires Contains(dir, ToToken)
    requires !Contains(head, ToToken) && !Contains(tail, ModeToken)
    requires NoSlash(head + ToToken + space + ModeToken + tail)
    ensures TargetSpace(Join(dir, head + ToToken + space + ModeToken + tail)).Some?
    ensures '/' in TargetSpace(Join(dir, head + ToToken + space + ModeToken + tail)).value
    ensures '/' !in space
    ensures TransformKey(Join(dir, head + ToToken + space + ModeToken + tail)) == Some(space)
  {
    var name := head + ToToken + space + ModeToken + tail;
    var d := DirPrefix(dir);
    assert name[|head|] == 't';
    assert Join(dir, name) == d + name;
    JoinedCaptureCrossesSlash(dir, d, name, |head| + 3 + |space|);
    assert forall k :: 0 <= k < |space| ==> space[k] == name[|head| + 3 + k];
    NameKey(dir, head, space, tail);
  }

  /** A `to-` in the directory and a `_mode` in the name put the separator
      between them into the capture. */
  lemma JoinedCaptureCrossesSlash(dir: Path, d: Path, name: string, m: int)
    requires Contains(dir, ToToken) && d == DirPrefix(dir)
    requires 0 <= m && OccursAt(name, ModeToken, m)
    ensures TargetSpace(d + name).Some? && '/' in TargetSpace(d + name).value
  {
    var p := d + name;
    var i :| 0 <= i <= |dir| - 3 && OccursAt(dir, ToToken, i);
    assert OccursAt(p, ToToken, i) by {
      assert p[i..i + 3] == dir[i..i + 3];
    }
    assert i + 3 <= |d| - 1 by {
      assert d[i + 2] == dir[i + 2] == '-';
      assert d[|d| - 1] == '/';
    }
    var b := |d| + m;
    assert OccursAt(p, ModeToken, b) by {
      assert p[b..b + 5] == name[m..m + 5];
    }
    CaptureCrossesSlash(p, i, b, |d| - 1);
  }

  /** Captured from the file name alone, the key is the space. */
  lemma NameKey(dir: Path, head: string, space: string, tail: string)
    requires !Contains(head, ToToken) && !Contains(tail, ModeToken)
    requires NoSlash(head + ToToken + space + ModeToken + tail)
    ensures TransformKey(Join(dir, head + ToToken + space + ModeToken + tail)) == Some(space)
  {
    BasenameOfJoin(dir, head + ToToken + space + ModeToken + tail);
    TargetSpaceOfName(head, space, tail);
  }

  /** A `/` between some `to-` and some later `_mode` ends up in the
      capture. */
  lemma CaptureCrossesSlash(p: string, i: int, b: int, pos: int)
    requires OccursAt(p, ToToken, i) && OccursAt(p, ModeToken, b)
    requires i + 3 <= pos < b && p[pos] == '/'
    ensures TargetSpace(p).Some? && '/' in TargetSpace(p).value
  {
    var r := TargetSpace(p);
    var i0 :| Captures(p, i0, r.value);
    assert i0 <= i;
    assert i0 + 3 + |r.value| >= b;
    assert r.value[pos - i0 - 3] == p[pos];
  }

  // ---------------------------------------------------------------------
  // Anatomical transforms (lines 79-87).

  const FromT1w := "from-T1w"

  /** `{inDir}/sub-{sub}/anat`. */
  function AnatDir(inDir: Path, sub: string): Path {
    JoinAll(inDir, ["sub-" + sub, "anat"])
  }

  /** `{inDir}/sub-{sub}/ses-{ses}/anat`. */
  function SessionAnatDir(inDir: Path, sub: string, ses: string): Path {
    JoinAll(inDir, ["sub-" + sub, "ses-" + ses, "anat"])
  }

  /** The file-name part of the glob `{stem}_from-*_to-*`. */
  predicate MatchesXfmPattern(stem: string, name: string) {
    var head := stem + "_from-";
    IsPrefix(head, name) && Contains(name[|head|..], "_to-")
  }

  /** The transform glob of one directory: names starting with
      `{stem}_from-` and holding a later `_to-`, in listing order. */
  function XfmGlob(fs: FileSystem, dir: Path, stem: string): (r: seq<Path>)
    ensures forall e :: e in r <==>
      e in fs.Entries() && IsChildOf(dir, e) && MatchesXfmPattern(stem, Basename(e))
  {
    Filter(fs.Entries(), e => IsChildOf(dir, e) && MatchesXfmPattern(stem, Basename(e)))
  }

  /** The files `find_anat_xfm` looks at: the session directory is only
      consulted when the session-less one yields nothing and a session is
      given. */
  function AnatXfmFiles(fs: FileSystem, inDir: Path, sub: string, ses: Option<string>): (r: seq<Path>)
    ensures XfmGlob(fs, AnatDir(inDir, sub), "sub-" + sub) != [] || ses.None? ==>
      r == XfmGlob(fs, AnatDir(inDir, sub), "sub-" + sub)
    ensures forall e :: e in r ==>
      || (IsChildOf(AnatDir(inDir, sub), e) && MatchesXfmPattern("sub-" + sub, Basename(e)))
      || (ses.Some? && IsChildOf(SessionAnatDir(inDir, sub, ses.value), e)
          && MatchesXfmPattern("sub-" + sub + "_ses-" + ses.value, Basename(e)))
  {
    var first := XfmGlob(fs, AnatDir(inDir, sub), "sub-" + sub);
    if first == [] && ses.Some? then
      XfmGlob(fs, SessionAnatDir(inDir, sub, ses.value), "sub-" + sub + "_ses-" + ses.value)
    else first
  }

  /** File `f` of the list contributes to the transform map under key `k`. */
  predicate Contributes(f: Path, key: Path -> Option<string>, k: string) {
    Contains(f, FromT1w) && key(f) == Some(k)
  }

  /** `files[i]` is the last file of the list that contributes under `k`:
      later files overwrite earlier ones in the dictionary. */
  predicate LastContributor(files: seq<Path>, key: Path -> Option<string>, k: string, i: int) {
    && 0 <= i < |files|
    && Contributes(files[i], key, k)
    && forall j :: i < j < |files| ==> !Contributes(files[j], key, k)
  }

  /** `m` files every key of the list under the last file that contributes
      it, and nothing else. */
  ghost predicate IsTransformMap(m: map<string, Path>, files: seq<Path>, key: Path -> Option<string>) {
    && (forall k :: k in m <==> exists i :: 0 <= i < |files| && Contributes(files[i], key, k))
    && (forall k :: k in m ==> exists i :: LastContributor(files, key, k, i) && files[i] == m[k])
  }

  lemma TransformMapSkip(m: map<string, Path>, init: seq<Path>, f: Path, key: Path -> Option<string>)
    requires IsTransformMap(m, init, key)
    requires !Contains(f, FromT1w)
    ensures IsTransformMap(m, init + [f], key)
  {
    var files := init + [f];
    forall k | k in m ensures exists i :: LastContributor(files, key, k, i) && files[i] == m[k] {
      var i :| LastContributor(init, key, k, i) && init[i] == m[k];
      assert LastContributor(files, key, k, i);
    }
    forall k | exists i :: 0 <= i < |files| && Contributes(files[i], key, k) ensures k in m {
      var i :| 0 <= i < |files| && Contributes(files[i], key, k);
      assert init[i] == files[i];
    }
  }

  lemma TransformMapAdd(m: map<string, Path>, init: seq<Path>, f: Path, key: Path -> Option<string>, kf: string)
    requires IsTransformMap(m, init, key)
    requires Contributes(f, key, kf)
    ensures IsTransformMap(m[kf := f], init + [f], key)
  {
    var files := init + [f];
    var m' := m[kf := f];
    assert LastContributor(files, key, kf, |init|);
    forall k | k in m' ensures exists i :: LastContributor(files, key, k, i) && files[i] == m'[k] {
      if k != kf {
        var i :| LastContributor(init, key, k, i) && init[i] == m[k];
        assert LastContributor(files, key, k, i);
      }
    }
    forall k | exists i :: 0 <= i < |files| && Contributes(files[i], key, k) ensures k in m' {
      var i :| 0 <= i < |files| && Contributes(files[i], key, k);
      if i < |init| {
        assert init[i] == files[i];
      }
    }
  }

  /** Every file a transform map holds is in the list and carries its key. */
  lemma TransformMapValues(m: map<string, Path>, files: seq<Path>, key: Path -> Option<string>)
    requires IsTransformMap(m, files, key)
    ensures forall k :: k in m ==> m[k] in files && key(m[k]) == Some(k)
  {
    forall k | k in m ensures m[k] in files && key(m[k]) == Some(k) {
      var i :| LastContributor(files, key, k, i) && files[i] == m[k];
    }
  }

  /** The loop of lines 84-86 with the capture of line 86 passed as `key`:
      every file containing `from-T1w` is filed under its key, the last
      one winning, and the first whose key cannot be captured stops the
      loop. */
  function Transforms(files: seq<Path>, key: Path -> Option<string>): (r: Result<map<string, Path>, Failure>)
    ensures r.Ok? <==> forall i :: 0 <= i < |files| && Contains(files[i], FromT1w) ==> key(files[i]).Some?
    ensures r.Err? ==>
      exists i ::
        && 0 <= i < |files|
        && Contains(files[i], FromT1w)
        && key(files[i]).None?
        && r.error == MalformedTransformName(files[i])
        && forall j :: 0 <= j < i && Contains(files[j], FromT1w) ==> key(files[j]).Some?
    ensures r.Ok? ==> IsTransformMap(r.value, files, key)
    decreases |files|
  {
    if files == [] then Ok(map[])
    else
      var init := files[..|files| - 1];
      var f := files[|files| - 1];
      assert files == init + [f];
      assert forall i :: 0 <= i < |init| ==> init[i] == files[i];
      match Transforms(init, key)
      case Err(e) => Err(e)
      case Ok(m) =>
        if !Contains(f, FromT1w) then
          TransformMapSkip(m, init, f, key);
          Ok(m)
        else
          match key(f)
          case None => Err(MalformedTransformName(f))
          case Some(kf) =>
            TransformMapAdd(m, init, f, key, kf);
            Ok(m[kf := f])
  }

  /** What `Transforms` yields, stated over the files rather than their
      positions. */
  lemma TransformsByFile(files: seq<Path>, key: Path -> Option<string>)
    ensures
      var r := Transforms(files, key);
      && (r.Ok? ==> forall k :: k in r.value <==>
            exists f :: f in files && Contains(f, FromT1w) && key(f) == Some(k))
      && (r.Ok? ==> forall k :: k in r.value ==> r.value[k] in files && key(r.value[k]) == Some(k))
      && (r.Err? ==>
            exists f :: f in files && Contains(f, FromT1w) && key(f).None? && r.error == MalformedTransformName(f))
  {
    var r := Transforms(files, key);
    if r.Ok? {
      TransformMapValues(r.value, files, key);
      forall k ensures k in r.value <==> exists f :: f in files && Contains(f, FromT1w) && key(f) == Some(k) {
        if k in r.value {
          var i :| 0 <= i < |files| && Contributes(files[i], key, k);
          assert files[i] in files;
        }
        if exists f :: f in files && Contains(f, FromT1w) && key(f) == Some(k) {
          var f :| f in files && Contains(f, FromT1w) && key(f) == Some(k);
          var i :| 0 <= i < |files| && files[i] == f;
          assert Contributes(files[i], key, k);
        }
      }
    } else {
      var i :| 0 <= i < |files| && Contains(files[i], FromT1w) && key(files[i]).None? && r.error == MalformedTransformName(files[i]);
      assert files[i] in files;
    }
  }

  /** `find_anat_xfm` as written: the key is captured from the full path. */
  function FindAnatXfmAsWritten(fs: FileSystem, inDir: Path, sub: string, ses: Option<string>): (r: Result<map<string, Path>, Failure>)
    ensures r.Ok? <==> forall i :: 0 <= i < |AnatXfmFiles(fs, inDir, sub, ses)| && Contains(AnatXfmFiles(fs, inDir, sub, ses)[i], FromT1w) ==>
      TargetSpace(AnatXfmFiles(fs, inDir, sub, ses)[i]).Some?
    ensures r.Ok? ==> forall k :: k in r.value <==>
      exists f :: f in AnatXfmFiles(fs, inDir, sub, ses) && Contains(f, FromT1w) && TargetSpace(f) == Some(k)
    ensures r.Ok? ==> forall k :: k in r.value ==>
      r.value[k] in AnatXfmFiles(fs, inDir, sub, ses) && TargetSpace(r.value[k]) == Some(k)
    ensures r.Err? ==>
      exists f ::
        && f in AnatXfmFiles(fs, inDir, sub, ses)
        && Contains(f, FromT1w)
        && TargetSpace(f).None?
        && r.error == MalformedTransformName(f)
  {
    TransformsByFile(AnatXfmFiles(fs, inDir, sub, ses), TargetSpace);
    Transforms(AnatXfmFiles(fs, inDir, sub, ses), TargetSpace)
  }

  /** The key of a transform, captured from its file name alone. */
  function TransformKey(f: Path): Option<string> {
    TargetSpace(Basename(f))
  }

  /** `find_anat_xfm` with the key captured from the file name: the
      directories above it no longer take part. */
  function FindAnatXfm(fs: FileSystem, inDir: Path, sub: string, ses: Option<string>): (r: Result<map<string, Path>, Failure>)
    ensures r.Ok? <==> forall i :: 0 <= i < |AnatXfmFiles(fs, inDir, sub, ses)| && Contains(AnatXfmFiles(fs, inDir, sub, ses)[i], FromT1w) ==>
      TransformKey(AnatXfmFiles(fs, inDir, sub, ses)[i]).Some?
    ensures r.Ok? ==> forall k :: k in r.value <==>
      exists f :: f in AnatXfmFiles(fs, inDir, sub, ses) && Contains(f, FromT1w) && TransformKey(f) == Some(k)
    ensures r.Ok? ==> forall k :: k in r.value ==>
      r.value[k] in AnatXfmFiles(fs, inDir, sub, ses) && TransformKey(r.value[k]) == Some(k)
    ensures r.Err? ==>
      exists f ::
        && f in AnatXfmFiles(fs, inDir, sub, ses)
        && Contains(f, FromT1w)
        && TransformKey(f).None?
        && r.error == MalformedTransformName(f)
  {
    var files := AnatXfmFiles(fs, inDir, sub, ses);
    TransformsByFile(files, TransformKey);
    Transforms(files, TransformKey)
  }

  /** With transforms in the session-less directory, the session makes no
      difference. */
  lemma AnatXfmPrefersSessionless(fs: FileSystem, inDir: Path, sub: string, ses: Option<string>)
    requires XfmGlob(fs, AnatDir(inDir, sub), "sub-" + sub) != []
    ensures FindAnatXfm(fs, inDir, sub, ses) == FindAnatXfm(fs, inDir, sub, None)
    ensures FindAnatXfmAsWritten(fs, inDir, sub, ses) == FindAnatXfmAsWritten(fs, inDir, sub, None)
  {
  }

  // ---------------------------------------------------------------------
  // The BOLD-to-T1w transform (lines 91-99).

  const BoldXfmSuffix := "_from-scanner_to-T1w_mode-image_xfm.txt"

  /** `{inDir}/sub-{sub}/ses-{ses}/func` when a session is given, and
      `{inDir}/sub-{sub}/func` otherwise. */
  function FuncDir(inDir: Path, sub: string, ses: Option<string>): Path {
    match ses
    case Some(s) => JoinAll(inDir, ["sub-" + sub, "ses-" + s, "func"])
    case None => JoinAll(inDir, ["sub-" + sub, "func"])
  }

  function FindBoldXfm(fs: FileSystem, inDir: Path, sub: string, ses: Option<string>, prefix: string): (r: Option<Path>)
    ensures r.Some? <==> fs.IsFile(Join(FuncDir(inDir, sub, ses), prefix + BoldXfmSuffix))
    ensures r.Some? ==> r.value == Join(FuncDir(inDir, sub, ses), prefix + BoldXfmSuffix)
  {
    var xfm := Join(FuncDir(inDir, sub, ses), prefix + BoldXfmSuffix);
    if fs.IsFile(xfm) then Some(xfm) else None
  }

  /** `_from-scanner_` holds no `to-`. */
  lemma ScannerHeadLacksTo(prefix: string)
    requires !Contains(prefix, ToToken)
    ensures !Contains(prefix + "_from-scanner_", ToToken)
  {
    var h := prefix + "_from-scanner_";
    var n := |prefix|;
    forall k | 0 <= k <= |h| - 3 ensures !OccursAt(h, ToToken, k) {
      if k + 3 <= n {
        assert h[k..k + 3] == prefix[k..k + 3];
        assert !OccursAt(prefix, ToToken, k);
      } else if k == n + 3 {
        assert h[k] == 'o';
        Mismatch(h, ToToken, k, 0);
      } else {
        var m := k - n;
        assert -2 <= m <= 11;
        assert m == -2 || m == -1 || m == 0 || m == 1 || m == 2 || m == 4 || m == 5 || m == 6 || m == 7
          || m == 8 || m == 9 || m == 10 || m == 11;
        assert h[k + 2] != '-';
        Mismatch(h, ToToken, k, 2);
      }
    }
  }

  lemma ImageTailLacksMode()
    ensures !Contains("-image_xfm.txt", ModeToken)
  {
    var tail := "-image_xfm.txt";
    forall k | 0 <= k <= |tail| - 5 ensures !OccursAt(tail, ModeToken, k) {
      assert k == 0 || k == 1 || k == 2 || k == 3 || k == 4 || k == 5 || k == 6 || k == 7 || k == 8 || k == 9;
      if k == 6 {
        Mismatch(tail, ModeToken, k, 1);
      } else {
        Mismatch(tail, ModeToken, k, 0);
      }
    }
  }

  /** The transform `find_bold_xfm` finds is one the key capture of line 86
      would file under `T1w`. */
  lemma BoldXfmTargetsT1w(fs: FileSystem, inDir: Path, sub: string, ses: Option<string>, prefix: string)
    requires NoSlash(prefix) && !Contains(prefix, ToToken)
    requires FindBoldXfm(fs, inDir, sub, ses, prefix).Some?
    ensures TransformKey(FindBoldXfm(fs, inDir, sub, ses, prefix).value) == Some("T1w")
  {
    BoldXfmKey(FuncDir(inDir, sub, ses), prefix);
  }

  lemma BoldXfmKey(dir: Path, prefix: string)
    requires NoSlash(prefix) && !Contains(prefix, ToToken)
    ensures TransformKey(Join(dir, prefix + BoldXfmSuffix)) == Some("T1w")
  {
    var name := prefix + BoldXfmSuffix;
    NoSlashConcat(prefix, BoldXfmSuffix);
    BasenameOfJoin(dir, name);
    BoldXfmNameKey(prefix);
  }

  lemma BoldXfmNameKey(prefix: string)
    requires !Contains(prefix, ToToken)
    ensures TargetSpace(prefix + BoldXfmSuffix) == Some("T1w")
  {
    ScannerHeadLacksTo(prefix);
    ImageTailLacksMode();
    assert prefix + BoldXfmSuffix == (prefix + "_from-scanner_") + ToToken + "T1w" + ModeToken + "-image_xfm.txt";
    TargetSpaceOfName(prefix + "_from-scanner_", "T1w", "-image_xfm.txt");
  }

  // ---------------------------------------------------------------------
  // The T1w image and brain mask (lines 103-119).

  /** The `{'image': ..., 'mask': ...}` dictionary, `None` for a file that
      does not exist. */
  datatype Anatomical = Anatomical(image: Option<Path>, mask: Option<Path>)

  const T1wSuffix := "_desc-preproc_T1w.nii.gz"
  const MaskSuffix := "_desc-brain_mask.nii.gz"

  /** The directory `find_t1w` reads and the file-name stem it expects
      there, or `None` when neither layout exists. */
  function AnatLayout(fs: FileSystem, inDir: Path, sub: string, ses: Option<string>): (r: Option<(Path, string)>)
    ensures r.None? <==> !fs.Exists(AnatDir(inDir, sub)) && (ses.None? || !fs.Exists(SessionAnatDir(inDir, sub, ses.value)))
    ensures fs.Exists(AnatDir(inDir, sub)) ==> r == Some((AnatDir(inDir, sub), "sub-" + sub))
    ensures r.Some? && !fs.Exists(AnatDir(inDir, sub)) ==>
      ses.Some? && r.value == (SessionAnatDir(inDir, sub, ses.value), "sub-" + sub + "_ses-" + ses.value)
  {
    if fs.Exists(AnatDir(inDir, sub)) then Some((AnatDir(inDir, sub), "sub-" + sub))
    else if ses.None? || !fs.Exists(SessionAnatDir(inDir, sub, ses.value)) then None
    else Some((SessionAnatDir(inDir, sub, ses.value), "sub-" + sub + "_ses-" + ses.value))
  }

  /** The named file of the directory when it exists, else `None`. */
  function ExistingFile(fs: FileSystem, dir: Path, name: string): (r: Option<Path>)
    ensures r.Some? <==> fs.Exists(Join(dir, name))
    ensures r.Some? ==> r.value == Join(dir, name)
  {
    if fs.Exists(Join(dir, name)) then Some(Join(dir, name)) else None
  }

  function FindT1w(fs: FileSystem, inDir: Path, sub: string, ses: Option<string>): (r: Option<Anatomical>)
    ensures r.None? <==> AnatLayout(fs, inDir, sub, ses).None?
    ensures r.Some? ==>
      var (dir, stem) := AnatLayout(fs, inDir, sub, ses).value;
      && (r.value.image.Some? <==> fs.Exists(Join(dir, stem + T1wSuffix)))
      && (r.value.image.Some? ==> r.value.image.value == Join(dir, stem + T1wSuffix))
      && (r.value.mask.Some? <==> fs.Exists(Join(dir, stem + MaskSuffix)))
      && (r.value.mask.Some? ==> r.value.mask.value == Join(dir, stem + MaskSuffix))
  {
    match AnatLayout(fs, inDir, sub, ses)
    case None => None
    case Some((dir, stem)) =>
      Some(Anatomical(ExistingFile(fs, dir, stem + T1wSuffix), ExistingFile(fs, dir, stem + MaskSuffix)))
  }

  /** With a session-less `anat` directory, the session makes no
      difference; without either layout nothing is found. */
  lemma T1wPrefersSessionless(fs: FileSystem, inDir: Path, sub: string, ses: Option<string>)
    ensures fs.Exists(AnatDir(inDir, sub)) ==> FindT1w(fs, inDir, sub, ses) == FindT1w(fs, inDir, sub, None)
    ensures !fs.Exists(AnatDir(inDir, sub)) ==> FindT1w(fs, inDir, sub, None).None?
  {
  }

  /** Falling back to the session directory, the files found carry the
      session in their names. */
  lemma T1wSessionFallback(fs: FileSystem, inDir: Path, sub: string, ses: string)
    requires !fs.Exists(AnatDir(inDir, sub)) && fs.Exists(SessionAnatDir(inDir, sub, ses))
    requires NoSlash(sub) && NoSlash(ses)
    ensures FindT1w(fs, inDir, sub, Some(ses)).Some?
    ensures var a := FindT1w(fs, inDir, sub, Some(ses)).value;
      a.image.Some? ==> Basename(a.image.value) == "sub-" + sub + "_ses-" + ses + T1wSuffix
  {
    var a := FindT1w(fs, inDir, sub, Some(ses)).value;
    if a.image.Some? {
      var name := "sub-" + sub + "_ses-" + ses + T1wSuffix;
      assert a.image.value == Join(SessionAnatDir(inDir, sub, ses), name);
      SessionT1wName(SessionAnatDir(inDir, sub, ses), sub, ses);
    }
  }

  lemma SessionT1wName(dir: Path, sub: string, ses: string)
    requires NoSlash(sub) && NoSlash(ses)
    ensures Basename(Join(dir, "sub-" + sub + "_ses-" + ses + T1wSuffix)) == "sub-" + sub + "_ses-" + ses + T1wSuffix
  {
    NoSlashConcat("sub-", sub);
    NoSlashConcat("sub-" + sub, "_ses-");
    NoSlashConcat("sub-" + sub + "_ses-", ses);
    NoSlashConcat("sub-" + sub + "_ses-" + ses, T1wSuffix);
    BasenameOfJoin(dir, "sub-" + sub + "_ses-" + ses + T1wSuffix);
  }
}
