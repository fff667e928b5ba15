# fmriprep_cluster in Dafny

A model of the pure logic in the fmriprep_cluster scripts. The scripts find
the subjects of a BIDS dataset, print PBS or SLURM job-array scripts that run
fMRIPrep on each subject, and keep track of which subjects are done. After
fMRIPrep, they group a subject's multi-echo images into runs and locate
everything the CIFTI resampling of each run needs. The filesystem is a
snapshot: a list of files and a list of directories, in listing order.
Directory walks go over a tree of named directories. Everything else is a
pure function of strings and sequences.

Modules, in dependency order:

- `Wrappers`: `Option` and `Result`.
- `Strings`: the Python string operations the scripts use, and decimal
  numerals with their parser.
- `Lists`, `Sorting`: filtering, mapping, deduplication and insertion sort.
- `Paths`: path joining, base names and the filesystem snapshot.
- `Failures`: every way a script can stop.
- `BidsNames`: BIDS run prefixes (the `sub-`, `ses-`, `task-` and `echo-`
  entities).
- `EchoRuns`: grouping echo images into runs (`find_multiecho_data`,
  `find_func_data`).
- `Locate`: tedana outputs, anatomical and BOLD transforms, and the T1w image
  and mask.
- `Readiness`: the output locations, the density table and the dispatch
  decision of `main`.
- `Subjects`: the subject walk with include and exclude lists, shared by both
  job-script generators.
- `JobScripts`: the options, defaults and printed script of `fmriprep_pbs.py`
  and `fmriprep_slurm.py`.
- `Bookkeeping`: the done and to-run lists of `generate_sub.py`, the count
  file and the submit hint.

Where the code does something its authors evidently did not intend, the model
keeps both versions. A member named `...AsWritten` follows the code. Its
corrected partner states the intended behaviour. Each such pair is listed
under "## Findings", and a "Corrected:" row of the table below describes a
member that models the intended behaviour rather than the code. The
corrected `main` builds on the corrected members; `main` as written builds on
the members as written.

## Model

| member | source | states |
|---|---|---|
| BidsNames.EchoPrefix | fmriprep_wf.py:43 | The prefix exists iff the name holds `_echo-`. It is a prefix of the name, ends where an `_echo-` starts, and no later `_echo-` follows (the greedy capture). |
| BidsNames.EchoPrefixOfName | fmriprep_wf.py:43 | A name built as prefix, `_echo-` and a tail without `_echo-` yields exactly that prefix. |
| BidsNames.ParsePrefix | fmriprep_wf.py:48-54 | Fails iff `_task-` is absent, with that prefix in the error. The session is absent iff `ses-` is absent; otherwise it is `_`-free text that follows some `ses-`. The run starts with `task-` and holds no further `_task-`. |
| BidsNames.ParseFormattedPrefix | fmriprep_wf.py:48-54 | For a prefix written the BIDS way from label-valued subject, session and task, parsing returns that subject, that session and `task-<task>` with the remaining entities. |
| BidsNames.NoSessionInFormatted | fmriprep_wf.py:49-53 | A prefix written without a session holds no `ses-`, so the session parses as absent. |
| BidsNames.SessionOfFormatted | fmriprep_wf.py:49-51 | In a prefix with a session, the text after the first `ses-` is that session label followed by the task entity. |
| BidsNames.TaskOfFormatted | fmriprep_wf.py:54 | The second `_task-` field of a formatted name is the task label and the tail. |
| EchoRuns.EchoCandidates | fmriprep_wf.py:41-42 | A path is a candidate iff it is in the snapshot, matches the echo-image pattern below `sub-<sub>`, and does not contain `_space-`. |
| EchoRuns.FuncCandidates | fmriprep_wf.py:15-16 | The same for the functional-image pattern with the default suffix. |
| EchoRuns.EchoPatternHasPrefix | fmriprep_wf.py:41-43 | Every name the echo pattern matches has an echo prefix, and that prefix starts with `sub-<sub>_`. |
| EchoRuns.PrefixList | fmriprep_wf.py:43 | Succeeds iff every file has an `_echo-`, with one prefix per file in order. Otherwise it fails on a file without one. |
| EchoRuns.RunPrefixes | fmriprep_wf.py:43-44 | The prefixes are distinct, and a string is among them iff it is the prefix of some file. |
| EchoRuns.LookupEchoTimes | fmriprep_wf.py:59 | Succeeds iff every image's sidecar has an echo time, and then gives each image its own time, in order. Otherwise it fails naming a missing sidecar. |
| EchoRuns.SubstringGroup | fmriprep_wf.py:56-57 | Holds exactly the files whose path contains the prefix anywhere, with their multiplicities (a permutation of the substring matches), sorted as strings. |
| EchoRuns.RunAsWritten | fmriprep_wf.py:54-62 | The row as built: succeeds iff the prefix has `_task-` and every substring-matched file is timed. Images are a permutation of the substring matches, sorted as strings. Times are a permutation of those images' echo times, sorted on their own. A success parses the prefix to the row's sub, ses and task; a failure names the sidecar of an untimed matching file. |
| EchoRuns.EchoesOf | fmriprep_wf.py:56-60 | Succeeds iff every image of the run is timed. The result holds exactly the run's images, each with its own time, ascending by time. |
| EchoRuns.RunOf | fmriprep_wf.py:47-62 | Succeeds iff the prefix has `_task-` and every image is timed. The parsed sub, ses and task are the prefix's. Each image stays paired with its own time in ascending time order, and the images are exactly those whose own prefix is this one. |
| EchoRuns.GroupRuns | fmriprep_wf.py:43-63 | Corrected: succeeds iff every candidate is gatherable (has an echo entity, a task entity and an echo time). The table then has distinct prefixes, no empty run, and covers every candidate. Failures are the three kinds named. |
| EchoRuns.GroupRunsAsWritten | fmriprep_wf.py:43-62 | As written: succeeds iff every candidate is gatherable, failing with the same three kinds otherwise. The prefixes are distinct, every candidate lies in some row's run, and every row is built by substring match: parsed prefix, images a permutation of the matches sorted as strings, times a permutation of their echo times sorted on their own. |
| EchoRuns.FindMultiechoDataAsWritten | fmriprep_wf.py:39-63 | As written: the table over the echo candidates succeeds iff every candidate is gatherable, and every row is built by substring match over those candidates and every candidate is covered. |
| EchoRuns.FindFuncDataAsWritten | fmriprep_wf.py:13-37 | As written: the same table over the functional candidates. |
| EchoRuns.TablesShareRuns | fmriprep_wf.py:43-62 | The table as written succeeds iff the corrected one does, and then both have the same rows in the same order with the same prefix, sub, ses and task; only images and times can differ. |
| EchoRuns.ImageInOneRun | fmriprep_wf.py:56 | In a runs table every candidate image lies in exactly one run. |
| EchoRuns.FindMultiechoData | fmriprep_wf.py:39-63 | Corrected: the runs table of a subject: succeeds iff every echo candidate is gatherable. It is a runs table over the candidates, and every prefix starts with `sub-<sub>_`. |
| EchoRuns.FindFuncData | fmriprep_wf.py:13-37 | Corrected: the same table over the functional candidates. An echo-entity failure names a candidate without `_echo-`. |
| EchoRuns.SubstringGroupingMixesTasks | fmriprep_wf.py:56 | With tasks `rest` and `restful`, the substring group of the `rest` run takes in the `restful` image, while the corrected run leaves it out. |
| EchoRuns.SeparateSortsMisalignTimes | fmriprep_wf.py:57-60 | When the image sorting first as a string has the later echo time, the row as written pairs each image with the other's time. |
| EchoRuns.TenthEchoGetsSecondEchoTime | fmriprep_wf.py:57-60 | With ten echoes, `_echo-10` sorts before `_echo-2`, so as written echo 10 is paired with echo 2's time. |
| Locate.SpaceOfOutputName | fmriprep_wf.py:71 | The output name reads back to the space it was built for. |
| Locate.SpaceImages | fmriprep_wf.py:69-73 | One entry per requested space: the expected output path when that file exists, missing otherwise. |
| Locate.FindTedanaOutputs | fmriprep_wf.py:67-75 | Keeps the prefix. The spaces are exactly the requested ones, except one named `prefix`, which the prefix overwrites. An entry is present iff its file exists, and it then holds that path. |
| Locate.TedanaOutputSpace | fmriprep_wf.py:67-75 | Every output found names, in its file name, the space it was filed under. |
| Locate.TargetSpace | fmriprep_wf.py:86 | A key is captured iff some `to-` precedes some `_mode`. It is the text from the first `to-` to the last `_mode`. |
| Locate.TargetSpaceOfName | fmriprep_wf.py:86 | A name with one `to-<space>_mode` yields that space. |
| Locate.XfmGlob | fmriprep_wf.py:80 | Exactly the snapshot entries directly inside the directory whose names match the transform pattern. |
| Locate.AnatXfmFiles | fmriprep_wf.py:80-82 | The session-less directory's files when there are any or no session is given. Otherwise the session directory's files with the session-scoped stem. |
| Locate.Transforms | fmriprep_wf.py:84-86 | Succeeds iff every `from-T1w` file yields a key. Each key is then held by the last file contributing it, and nothing else is held. Otherwise it fails on the first file that yields none. |
| Locate.TransformsByFile | fmriprep_wf.py:84-86 | A key is in the map iff some `from-T1w` file yields it, and the file it holds yields that key. |
| Locate.FindAnatXfmAsWritten | fmriprep_wf.py:79-87 | As written: succeeds iff every `from-T1w` file yields a capture taken over its full path. The keys are exactly those captures, and each key holds one of the searched files whose capture is that key. A failure names a file without a capture. |
| Locate.FindAnatXfm | fmriprep_wf.py:79-87 | Corrected: succeeds iff every `from-T1w` file's name alone yields a capture. The keys are exactly those captures, and each stored file is a searched file carrying its own key. |
| Locate.AnatXfmPrefersSessionless | fmriprep_wf.py:81 | With transforms in the session-less directory, the session makes no difference, as written and corrected. |
| Locate.DirectoryTokenCapturesPath | fmriprep_wf.py:86 | A `to-` in a directory name makes the key as written run across the `/` into the file name, while the corrected key is the space. |
| Locate.FindBoldXfm | fmriprep_wf.py:91-99 | Present iff the expected file exists under `ses-<ses>/func` when a session is given and `func` otherwise. It then holds that path. |
| Locate.BoldXfmTargetsT1w | fmriprep_wf.py:93-97 | The BOLD transform found is one the key capture would file under `T1w`. |
| Locate.AnatLayout | fmriprep_wf.py:106-112 | Absent iff neither `anat` directory exists (the session one only counts with a session). `sub-<sub>/anat` wins when it exists; otherwise the session directory with the `sub-<sub>_ses-<ses>` stem. |
| Locate.FindT1w | fmriprep_wf.py:103-119 | Absent iff no layout. The image and the mask are each the expected path in the chosen layout when it exists, and missing otherwise. |
| Locate.T1wPrefersSessionless | fmriprep_wf.py:107-109 | With a session-less `anat` the session makes no difference; without it and without a session nothing is found. |
| Locate.T1wSessionFallback | fmriprep_wf.py:108-112 | Falling back to the session directory finds a layout, and the image found carries the session in its name. |
| Readiness.OutDirOfRun | fmriprep_wf.py:279 | A run's output directory is `tedana/sub-<sub>/<prefix>` below the input directory, and its base name is the prefix. |
| Readiness.OutDirInjective | fmriprep_wf.py:279 | Distinct prefixes write to distinct output directories. |
| Readiness.OutFolderRoundTrip | fmriprep_wf.py:265-267 | The sink folder reads back to the subject and session it was built from. |
| Readiness.OutFolderInjective | fmriprep_wf.py:265-267 | Two runs share a sink folder only with the same subject and session. |
| Readiness.Density | fmriprep_wf.py:133 | The 32k mesh is chosen iff the density is `91k`. The pair is (32k, 2) or (59k, 1). |
| Readiness.DensityRoundTrip | fmriprep_wf.py:133 | `91k` and `170k` are recovered from their mesh, and any other value behaves as `170k`. |
| Readiness.ReadyIffRequiredPresent | fmriprep_wf.py:304-305 | A row is ready iff every one of the six required columns is present. |
| Readiness.NativeOutput | fmriprep_wf.py:289-291 | The native output is present iff the tedana output file exists in the run's output directory. |
| Readiness.MissingMessageInjective | fmriprep_wf.py:308 | Error lines for different runs differ. |
| Readiness.CompleteRowAsWritten | fmriprep_wf.py:296-302 | As written: succeeds iff the transform search succeeds with both the `space` and the `fsnative` key, and a T1w layout exists. A missing `space` key is the failure. |
| Readiness.CompleteRow | fmriprep_wf.py:296-302 | Corrected: succeeds iff the transform search succeeds. The row is ready iff the native output, the BOLD transform, both anatomical transforms and both T1w files exist. |
| Readiness.Settle | fmriprep_wf.py:303-313 | A row is dispatched iff `cifti` is set and it is ready. An error names a run iff `cifti` is set and some row of it is not ready. Together they count every row when `cifti` is set and none otherwise. |
| Readiness.Dispatch | fmriprep_wf.py:275-317 | No runs and no native output fail with their own errors. Success means every row completes; rows align with runs and satisfy the dispatch and error equivalences. |
| Readiness.MainAsWritten | fmriprep_wf.py:273-318 | As written: a failure of the table as written is `main`'s failure; otherwise `main` is the dispatch of that table with the row completion as written. |
| Readiness.MainAsWrittenRows | fmriprep_wf.py:273-318 | As written, `main` over a built table succeeds iff there are runs, some native output, and for every run the transform search succeeds with the `space` and `fsnative` keys and a T1w layout exists. Its rows then align with the runs, and a row is dispatched iff `cifti` is set and it is ready. |
| Readiness.SameRunsAsWritten | fmriprep_wf.py:39-63 | When the corrected table is built, the table as written is too, with as many runs, and a native output of the one is a native output of the other. |
| Readiness.Main | fmriprep_wf.py:273-318 | Corrected: a failure of the corrected table is `main`'s failure; otherwise `main` is the dispatch of that table with the corrected row completion. |
| Readiness.MainRows | fmriprep_wf.py:273-318 | Corrected `main` succeeds iff there are runs, some native output, and a transform search that succeeds for every run. Its rows then align with the runs. |
| Readiness.MissingTransformStopsMain | fmriprep_wf.py:296-302 | With no transform files at all, `main` as written stops with the missing-key error. The corrected one succeeds, dispatches nothing and, with `cifti`, reports every run. |
| Subjects.WalkReaches | fmriprep_pbs.py:40-49 | A directory is visited iff it is reachable without passing through a `sub-*` directory. |
| Subjects.WalkFindsSubjectDirs | fmriprep_pbs.py:42 | Every candidate the walk yields is a `sub-*` directory. |
| Subjects.BareLabelNotExcluded | fmriprep_pbs.py:44-45 | A bare label on the include list selects its subject, while the same label on the exclude list does not exclude it as written. |
| Subjects.Select | fmriprep_pbs.py:44-52 | Fails iff no candidate is kept, with the "No sub- dirs found in" message. Otherwise the id and path lists are aligned and non-empty. Every entry comes from a kept candidate, and every kept candidate's path is listed. |
| Subjects.FindSubjectsSpec | fmriprep_slurm.py:37-49 | Corrected search: fails iff no reachable `sub-*` directory passes the include test and the two-sided exclude test. Otherwise every entry is such a directory and every such directory is listed. |
| Subjects.FindSubjectsAsWrittenSpec | fmriprep_pbs.py:40-52 | As written: the search fails iff no reachable `sub-*` directory passes the include test and the raw-name exclude test. Otherwise ids and paths are aligned, every entry is such a directory, and every such directory is listed. |
| Subjects.ExcludedSubjectStillFound | fmriprep_pbs.py:45 | Excluding a subject by bare label still finds it as written. Corrected, nothing is found. |
| JobScripts.ExpandHome | fmriprep_pbs.py:30-31 | After expansion no `~` remains (if home has none), and a path without `~` is unchanged. |
| JobScripts.ExpandHomeIdempotent | fmriprep_slurm.py:30-31 | Expanding twice is expanding once. |
| JobScripts.ExpandLeadingTilde | fmriprep_slurm.py:30-31 | A leading `~` stands for the home directory. |
| JobScripts.CmdPreAsWritten | fmriprep_pbs.py:32-34 | As written, the PBS setup command neither starts nor ends with whitespace. |
| JobScripts.SetupNeverTerminated | fmriprep_pbs.py:32-34 | For every setup command: as written PBS keeps exactly the stripped command and SLURM the command as given, so a stripped command not ending in `;` stays unterminated; the corrected PBS command is then that one followed by `;`. |
| JobScripts.CmdPre | fmriprep_pbs.py:32-34 | Corrected: a non-empty PBS setup command ends with `;`. It is empty iff the stripped one is, it extends the stripped command by at most one character, and SLURM keeps the command as given. |
| JobScripts.CmdPreIdempotent | fmriprep_pbs.py:32-34 | Preparing the setup command twice changes nothing. |
| JobScripts.WalltimeRoundTrip | fmriprep_pbs.py:54 | The walltime string reads back to the hours it was built from. |
| JobScripts.LimitSuffix | fmriprep_pbs.py:56-59 | The suffix is empty iff no limit is given. |
| JobScripts.ArrayRangeRoundTrip | fmriprep_slurm.py:53-56 | The array range reads back to last index n - 1 and the given limit. |
| JobScripts.ContainerArgsAsWritten | fmriprep_pbs.py:62 | As written: fails iff `--fmriprep` is absent. Otherwise seven fixed arguments come first and the user arguments last. |
| JobScripts.ContainerArgs | fmriprep_slurm.py:59 | Corrected: seven fixed arguments, then the user arguments if any. |
| JobScripts.ContainerArgsReadBack | fmriprep_pbs.py:62 | The arguments carry the BIDS and output directories, `participant`, and thread count and memory that read back as numbers. |
| JobScripts.ContainerArgsAgree | fmriprep_pbs.py:62 | Where `--fmriprep` is given, the corrected arguments are those the script builds. |
| JobScripts.TaskCommand | fmriprep_pbs.py:81-83 | A task's command exists iff the index lies in 0 to `len(sub) - 1` (the range the directives hand out, not Python's negative indices). It starts with the command head and ends with that subject's label. |
| JobScripts.PbsCommandSeparatesSetup | fmriprep_slurm.py:82 | The PBS command is the SLURM one with the setup command and a space in front. |
| JobScripts.DefaultSetupRunsTogether | fmriprep_pbs.py:28-34 | With the default setup command, the shell command runs the container as an argument of `module load` as written. Corrected, a `;` separates them. |
| JobScripts.CmdPreSeparates | fmriprep_pbs.py:83 | Corrected, the first shell command is exactly the stripped setup command. |
| JobScripts.PlainRepr | fmriprep_pbs.py:81 | Text of printable characters other than quotes and backslashes is printed between single quotes as it is. |
| JobScripts.SingleQuoteSwitches | fmriprep_pbs.py:81 | Text with one single quote and no double quote is printed in double quotes, unescaped. |
| JobScripts.LabelListRepr | fmriprep_slurm.py:80 | A list of BIDS labels prints as the quoted labels joined by `, ` in brackets. |
| JobScripts.DirectivesRoundTrip | fmriprep_pbs.py:69-80 | The scheduler reads back the cores, memory, hours, last array index n - 1 and limit the directives were built from. |
| JobScripts.PbsRoundTrip | fmriprep_pbs.py:72-73 | The PBS resource and array lines read back to the request. |
| JobScripts.SlurmRoundTrip | fmriprep_slurm.py:69-72 | The four SLURM lines read back to the request. |
| JobScripts.ScriptShape | fmriprep_slurm.py:66-82 | The printed script's directives read back to the request for `|ids|` subjects. The list line prints the subject list, and the last line runs the command head on `sub[tid]`. |
| JobScripts.GenerateAsWritten | fmriprep_pbs.py:29-85 | As written, generation fails only for a missing `--fmriprep` or with the "No sub- dirs found in" message. |
| JobScripts.GenerateAsWrittenSpec | fmriprep_pbs.py:29-85 | As written, generation succeeds iff the as-written search finds a subject and `--fmriprep` is given. It then logs below the expanded output directory, its directives read back to one array task per subject found with the given cores, memory, hours and limit, the list line prints the subjects found, and the `system` line carries the command head with the setup command as written. |
| JobScripts.EveryTaskRunsOneSubjectAsWritten | fmriprep_pbs.py:69-83 | In the script as written, a task index is allowed by the directives iff it selects a subject; that task runs the head as written followed by the subject's label, the subject is one the as-written search wants, and for PBS the head opens with the stripped setup command and a space, with no `;`. |
| JobScripts.DefaultPbsScriptRunsTogether | fmriprep_pbs.py:18-34 | With the argparse defaults and any `--fmriprep`, the PBS script as written succeeds once it finds a subject, and its command head opens with `module load singularity singularity run `. |
| JobScripts.GenerateSpec | fmriprep_pbs.py:29-85 | Corrected generation fails iff no directory is wanted. Otherwise the log directory is under the expanded output directory, the directives ask for one task per subject found, and the list line prints those subjects. |
| JobScripts.EveryTaskRunsOneSubject | fmriprep_slurm.py:72-82 | A task index is allowed by the directives iff it selects a subject. That task's command runs the container for that subject, and the subject is a wanted directory. |
| JobScripts.MissingArgsStopGeneration | fmriprep_slurm.py:59 | Without `--fmriprep`, the script as written always fails, with the container-argument error whenever subjects are found. The corrected one succeeds iff subjects are found. |
| Bookkeeping.SubjectDirs | generate_sub.py:22 | Exactly the snapshot entries directly inside the BIDS directory whose names start with `sub-`, in listing order. |
| Bookkeeping.ListedPartition | generate_sub.py:23-24 | The removed and kept directories partition the subject directories as a multiset. A directory is kept iff its id is on the study list. |
| Bookkeeping.DoneDirsMember | generate_sub.py:40-45 | A directory is done iff it is a listed subject directory with raw data and as many processed series as raw ones. |
| Bookkeeping.DoneIdsSpec | generate_sub.py:39-46 | An id is done iff some listed directory with that id is done. Every done id is on the study list. |
| Bookkeeping.ToRunSpec | generate_sub.py:55 | The to-run list is a subsequence of the study list. It holds exactly the listed ids that are not done, and with the done entries it counts the whole list. |
| Bookkeeping.CountTextRoundTrip | generate_sub.py:61-62 | The count file reads back to the number of subjects to run. |
| Bookkeeping.HintRangeOf | generate_sub.py:64 | As written, the hint's range names last index `len(sub) - 1` and no limit. |
| Bookkeeping.SubmitHintCoversList | generate_sub.py:64 | Corrected: the hint exists iff something is left to run. Its range then covers the saved list's indices one to one. |
| Bookkeeping.NothingLeftStillSubmits | generate_sub.py:64 | With nothing left to run, the hint as written asks for the array `0--1`. Corrected, no hint is printed. |
| Bookkeeping.BookkeepAsWritten | generate_sub.py:53-64 | As written: the saved list is the study list less the done ids, the count file reads back to its length, and a hint is always printed, naming last index `len(sub) - 1` and no limit. |
| Bookkeeping.BookkeepDiffersOnlyWhenDone | generate_sub.py:64 | The plan as written equals the corrected one iff something is left to run. |
| Bookkeeping.Bookkeep | generate_sub.py:53-64 | Corrected: the saved list is the study list less the done ids. The count file reads back to the length of the saved list, and a hint is printed iff that list is non-empty. |

## Left out

- Filesystem access (glob, walk, `exists`, `isfile`, `makedirs`) is a fixed snapshot passed as a parameter. Paths are not normalised, there are no symlinks, and glob's hiding of dot-files is not modelled.
- Regular expressions: `.` is taken to match every character; paths are assumed free of newlines.
- JSON sidecars: echo times are a map from sidecar path to number. A sidecar without `EchoTime` counts as a missing one.
- Python set iteration order of the run prefixes (line 44) is fixed to first appearance. In the source that order also fixes the order of the table's rows, of the runs handed to the tedana and CIFTI pools (lines 285 and 312) and of the printed ERROR lines (line 308), as well as which error is raised first; the model states every such order for first appearance only.
- pandas: rows are records with `Option` cells for NaN. The `merge` of line 291 is taken as matching each run with its own outputs by prefix.
- The tedana and CIFTI workflows, `Pool` dispatch and `wf.run()` are not modelled. `main` ends with the list of rows it would dispatch, and the `tedana` flag only decides whether tedana runs, so it is left out.
- argparse, `$HOME`, `sys.exit` and `print` are parameters, `Result` errors and returned lines. The splitting of the `--fmriprep` string into words is taken as done.
- Readiness.Dispatch: every row is built before any line is reported, so when a later row of `fmriprep_wf.py` raises at lines 296-302, the model's error leaves out the ERROR lines (line 308) that earlier unready rows would already have printed.
- `generate_sub.py`: the CSV is read as a list of string ids (a numeric CSV column would hold integers that never match a directory name). The pickle file, the fixed paths, the `Run:` header printed before the submit command (line 64) and the printed progress lines are left out.
- JobScripts.TaskCommand: the task's shell command is taken to be the command head followed by the subject label. The printed line is a Python 2 `system("<head>%s" % sub[tid])` call, and a `"`, `\` or `%` in the setup command, the container, the image or the `--fmriprep` arguments would end the string literal, start an escape or a format directive; that reading is not modelled. EveryTaskRunsOneSubject and EveryTaskRunsOneSubjectAsWritten state the command as `head + label` for every head, and the printed script runs something else whenever the head holds one of those three characters. TaskCommand also has no command for a negative index, which Python's `sub[tid]` would accept; the directives never hand one out.
- JobScripts.EscapeChar: characters above 0xFF stand for one byte, so only the low byte is shown.
- JobScripts.Script: the printed lines assume the option values hold no newline; `textwrap.dedent` is taken as removing the four-space indent.

## Findings

| source | as written | input that shows it | evidently intended | confidence | as-written member | corrected member |
|---|---|---|---|---|---|---|
| fmriprep_pbs.py:45 | The chained `not in` tests only the raw directory name against the exclude list. | `--exclude 01` with a directory `sub-01`: the subject is still run. | Exclude like include, by raw or stripped name. | high, not executed | Subjects.ExcludedSubjectStillFound | Subjects.FindSubjectsSpec |
| fmriprep_slurm.py:42 | The same chained test. | `--exclude 01` with a directory `sub-01`. | Exclude by raw or stripped name. | high, not executed | Subjects.BareLabelNotExcluded | Subjects.FindSubjectsSpec |
| fmriprep_pbs.py:33-34 | `endswith("")` is always true, so `;` is never appended. | The default setup command gives `module load singularity singularity run ...`. | Append `;` when the command does not end with one. | high, not executed | JobScripts.DefaultSetupRunsTogether | JobScripts.CmdPreSeparates |
| fmriprep_pbs.py:62 | A list plus a missing `--fmriprep` raises TypeError. | Any run without `--fmriprep` that finds a subject. | Treat a missing `--fmriprep` as no extra arguments. | high, not executed | JobScripts.MissingArgsStopGeneration | JobScripts.GenerateSpec |
| fmriprep_wf.py:56 | Echo images are grouped by substring match on the prefix. | Tasks `rest` and `restful` of one subject: the `rest` run takes the `restful` images. | Group by each image's own prefix. | high, not executed | EchoRuns.SubstringGroupingMixesTasks | EchoRuns.RunOf |
| fmriprep_wf.py:57-60 | Images sorted by path and times sorted separately misalign. | Ten echoes: `_echo-10` sorts before `_echo-2` and receives echo 2's time. | Keep each image paired with its own time. | high, not executed | EchoRuns.TenthEchoGetsSecondEchoTime | EchoRuns.EchoesOf |
| fmriprep_wf.py:297-302 | A missing transform key or anatomy raises before the readiness test that handles missing inputs. | A subject with tedana output but no `from-T1w` transforms: `main` stops with KeyError. | Record the cell as missing and let the readiness test report the run. | medium, not executed | Readiness.MissingTransformStopsMain | Readiness.MainRows |
| fmriprep_wf.py:86 | The key is captured from the full path, starting at the first `to-`. | A derivatives directory named `to-do`: the key runs from `do/` up to the file's `_mode`. | Capture from the file name alone. | medium, not executed | Locate.DirectoryTokenCapturesPath | Locate.FindAnatXfm |
| generate_sub.py:64 | The hint prints `0-{len(sub)-1}` even when nothing is left. | Every listed subject done: `qsub -J 0--1 ...`. | Print no submission when nothing is left. | medium, not executed | Bookkeeping.NothingLeftStillSubmits | Bookkeeping.SubmitHintCoversList |
