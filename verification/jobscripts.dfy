/** The array-job scripts `fmriprep_pbs.py` and `fmriprep_slurm.py` print:
    the options after `~` expansion, the scheduler directives, the Python 2
    rendering of the subject list, and the container command each array task
    runs. The two scripts differ only in the directive block, the variable
    holding the task index, and the way `--cmd_pre` is glued to the command. */
module JobScripts {
  import opened Wrappers
  import opened Strings
  import opened Lists
  import opened Paths
  import opened Failures
  import opened BidsNames
  import opened Subjects

  datatype Scheduler = Pbs | Slurm

  /** The parsed command line. `queue` is `--queue` for PBS and
      `--partition` for SLURM; `None` is an option that was not given. */
  datatype Options = Options(
    bidsDir: Path,
    outDir: Path,
    fmriprep: Option<seq<string>>,
    includes: Option<seq<string>>,
    excludes: Option<seq<string>>,
    ncpu: int,
    mem: int,
    queue: string,
    limit: Option<int>,
    hrs: int,
    container: string,
    img: string,
    cmdPre: string)

  const DefaultPbsCmdPre := "module load singularity"

  /** The argparse defaults of lines 18-28 of either script; `home` is
      `$HOME`. */
  function Defaults(s: Scheduler, bidsDir: Path, outDir: Path, home: Path): Options {
    Options(
      bidsDir, outDir, None, None, None, 8, 10000,
      if s.Pbs? then "" else "general",
      None, 24, "singularity", home + "/local/simg/fmriprep-latest.simg",
      if s.Pbs? then DefaultPbsCmdPre else "")
  }

  // ---------------------------------------------------------------------
  // Lines 30-31: `~` expansion.

  const Tilde := "~"

  /** Every `~` of a path replaced by the home directory. */
  function ExpandHome(p: Path, home: Path): (r: Path)
    ensures !Contains(home, Tilde) ==> !Contains(r, Tilde)
    ensures !Contains(p, Tilde) ==> r == p
  {
    assert !Contains(home, Tilde) ==> !Contains(ReplaceAll(p, Tilde, home), Tilde) by {
      if !Contains(home, Tilde) {
        ReplaceRemovesAll(p, Tilde, home);
      }
    }
    assert !Contains(p, Tilde) ==> ReplaceAll(p, Tilde, home) == p by {
      if !Contains(p, Tilde) {
        ReplaceAbsent(p, Tilde, home);
      }
    }
    ReplaceAll(p, Tilde, home)
  }

  /** Expanding twice is expanding once, as long as `$HOME` itself holds
      no `~`. */
  lemma ExpandHomeIdempotent(p: Path, home: Path)
    requires !Contains(home, Tilde)
    ensures ExpandHome(ExpandHome(p, home), home) == ExpandHome(p, home)
  {
  }

  /** A `~` in front of a path stands for `$HOME`. */
  lemma ExpandLeadingTilde(rest: Path, home: Path)
    requires !Contains(rest, Tilde)
    ensures ExpandHome(Tilde + rest, home) == home + rest
  {
    ReplaceLeading(Tilde, rest, home);
    ReplaceAbsent(rest, Tilde, home);
  }

  function Expanded(o: Options, home: Path): Options {
    o.(bidsDir := ExpandHome(o.bidsDir, home), outDir := ExpandHome(o.outDir, home))
  }

  // ---------------------------------------------------------------------
  // Lines 32-34 of the PBS script: the setup command.

  /** As written: PBS strips the setup command, and the test meant to add a
      `;` asks `endswith("")`, which every string passes, so nothing is
      appended; SLURM takes the setup command as given. */
  function CmdPreAsWritten(s: Scheduler, c: string): (r: string)
    ensures s.Pbs? ==> r == [] || (!IsSpace(r[0]) && !IsSpace(r[|r| - 1]))
  {
    if s.Pbs? then
      var t := Strip(c);
      assert IsSuffix("", t);
      t
    else c
  }

  /** Corrected: a non-empty stripped PBS setup command is terminated by a
      `;` so that the shell runs it before the container; SLURM is left as
      it is. */
  function CmdPre(s: Scheduler, c: string): (r: string)
    ensures s.Pbs? ==> r == "" || r[|r| - 1] == ';'
    ensures s.Pbs? ==> (r == "" <==> Strip(c) == "")
    ensures s.Pbs? ==> IsPrefix(Strip(c), r) && |r| <= |Strip(c)| + 1
    ensures s.Slurm? ==> r == c
  {
    if s.Slurm? then c else Terminate(Strip(c))
  }

  /** A command with a `;` at its end, unless it is empty or has one. */
  function Terminate(t: string): (r: string)
    ensures r == "" || r[|r| - 1] == ';'
    ensures r == "" <==> t == ""
    ensures IsPrefix(t, r) && |r| <= |t| + 1
  {
    if t == "" || t[|t| - 1] == ';' then t
    else
      assert (t + ";")[..|t|] == t;
      t + ";"
  }

  /** For every setup command: as written, PBS keeps the stripped command
      exactly, so one that does not already end in `;` never gets one,
      and SLURM keeps the command untouched. The corrected version differs
      from it by exactly that `;`. */
  lemma SetupNeverTerminated(c: string)
    ensures CmdPreAsWritten(Pbs, c) == Strip(c)
    ensures CmdPreAsWritten(Slurm, c) == c
    ensures Strip(c) != "" && Strip(c)[|Strip(c)| - 1] != ';' ==>
      && CmdPreAsWritten(Pbs, c)[|Strip(c)| - 1] != ';'
      && CmdPre(Pbs, c) == CmdPreAsWritten(Pbs, c) + ";"
  {
  }

  /** Preparing the setup command a second time changes nothing. */
  lemma CmdPreIdempotent(s: Scheduler, c: string)
    ensures CmdPre(s, CmdPre(s, c)) == CmdPre(s, c)
  {
    if s.Pbs? {
      var t := Strip(c);
      var r := CmdPre(s, c);
      assert r == [] || (!IsSpace(r[0]) && !IsSpace(r[|r| - 1])) by {
        if r != [] {
          assert r[0] == t[0];
        }
      }
      StripUnpadded(r);
    }
  }

  // ---------------------------------------------------------------------
  // Lines 54-59 of the PBS script (51-56 of SLURM): walltime and the
  // array range, each with the reader a scheduler applies to it.

  const WalltimeTail := ":00:00"

  /** The walltime: the hours followed by zero minutes and seconds. */
  function Walltime(hrs: int): (r: string)
    ensures IsSuffix(WalltimeTail, r)
  {
    IntToString(hrs) + WalltimeTail
  }

  function ParseWalltime(t: string): Option<int> {
    if IsSuffix(WalltimeTail, t) then ParseInt(t[..|t| - |WalltimeTail|]) else None
  }

  lemma WalltimeRoundTrip(hrs: int)
    ensures ParseWalltime(Walltime(hrs)) == Some(hrs)
  {
    var t := Walltime(hrs);
    assert t[..|t| - |WalltimeTail|] == IntToString(hrs);
    IntRoundTrip(hrs);
  }

  /** `%` and the concurrency limit, or nothing without `--limit`. */
  function LimitSuffix(limit: Option<int>): (r: string)
    ensures r == "" <==> limit.None?
  {
    match limit
    case None => ""
    case Some(l) => "%" + IntToString(l)
  }

  /** The array range: indices 0 to n - 1, then the concurrency suffix. */
  function ArrayRange(n: int, limit: Option<int>): string {
    "0-" + RangeBody(n - 1, limit)
  }

  function RangeBody(last: int, limit: Option<int>): string {
    IntToString(last) + LimitSuffix(limit)
  }

  /** The number in front of the first `t` and the text after that `t`. */
  function NumberBefore(s: string, t: string): Option<(int, string)>
    requires |t| > 0
  {
    match AfterFirst(s, t)
    case None => None
    case Some(rest) =>
      match ParseInt(Before(s, t))
      case None => None
      case Some(v) => Some((v, rest))
  }

  /** The last index and the concurrency limit an array range names. */
  function ParseArrayRange(t: string): Option<(int, Option<int>)> {
    if IsPrefix("0-", t) then ParseRangeBody(t[2..]) else None
  }

  /** The text after `0-`: the last index, then `%` and the limit if any. */
  function ParseRangeBody(b: string): Option<(int, Option<int>)> {
    if Contains(b, "%") then
      match NumberBefore(b, "%")
      case None => None
      case Some(p) =>
        match ParseInt(p.1)
        case None => None
        case Some(l) => Some((p.0, Some(l)))
    else
      match ParseInt(b)
      case None => None
      case Some(last) => Some((last, None))
  }

  /** A printed number holds no character other than digits and `-`. */
  lemma NumeralLacks(i: int, c: char)
    requires !IsDigit(c) && c != '-'
    ensures !Contains(IntToString(i), [c])
  {
    var s := IntToString(i);
    forall j | 0 <= j <= |s| - 1 ensures !OccursAt(s, [c], j) {
      OccursAtChar(s, c, j);
    }
  }

  /** A number followed by a token that cannot start a number reads back
      as that number and the text after the token. */
  lemma NumeralThen(i: int, t: string, rest: string)
    requires |t| > 0 && !IsDigit(t[0]) && t[0] != '-'
    ensures NumberBefore(IntToString(i) + t + rest, t) == Some((i, rest))
  {
    var n := IntToString(i);
    var s := n + t + rest;
    assert OccursAt(s, t, |n|) by {
      assert s[|n|..|n| + |t|] == t;
    }
    forall j | 0 <= j < |n| ensures !OccursAt(s, t, j) {
      assert s[j] == n[j];
      Mismatch(s, t, j, 0);
    }
    FirstOccurrence(s, t, |n|);
    assert s[..|n|] == n;
    assert s[|n| + |t|..] == rest;
    IntRoundTrip(i);
  }

  lemma RangeBodyWithoutLimit(m: int)
    ensures ParseRangeBody(IntToString(m)) == Some((m, None))
  {
    NumeralLacks(m, '%');
    IntRoundTrip(m);
  }

  lemma RangeBodyWithLimit(m: int, l: int)
    ensures ParseRangeBody(IntToString(m) + "%" + IntToString(l)) == Some((m, Some(l)))
  {
    var k := IntToString(m);
    var b := k + "%" + IntToString(l);
    assert OccursAt(b, "%", |k|) by {
      assert b[|k|..|k| + 1] == "%";
    }
    NumeralThen(m, "%", IntToString(l));
    IntRoundTrip(l);
  }

  lemma ArrayRangeRoundTrip(n: int, limit: Option<int>)
    ensures ParseArrayRange(ArrayRange(n, limit)) == Some((n - 1, limit))
  {
    var body := RangeBody(n - 1, limit);
    var t := "0-" + body;
    assert t[..2] == "0-" && t[2..] == body;
    if limit.None? {
      assert body == IntToString(n - 1);
      RangeBodyWithoutLimit(n - 1);
    } else {
      assert body == IntToString(n - 1) + "%" + IntToString(limit.value);
      RangeBodyWithLimit(n - 1, limit.value);
    }
  }

  // ---------------------------------------------------------------------
  // Line 62 of the PBS script (59 of SLURM): the container's arguments.

  /** The fixed arguments in front of the user's `--fmriprep` ones. */
  function BaseArgs(o: Options): seq<string> {
    [o.bidsDir, o.outDir, "participant", "--nthreads", IntToString(o.ncpu), "--mem-mb", IntToString(o.mem)]
  }

  /** As written: adding `None` to a list raises TypeError, so leaving out
      `--fmriprep` stops the script. */
  function ContainerArgsAsWritten(o: Options): (r: Result<seq<string>, Failure>)
    ensures r.Err? <==> o.fmriprep.None?
    ensures r.Err? ==> r.error == MissingContainerArgs
    ensures r.Ok? ==> |r.value| == 7 + |o.fmriprep.value| && r.value[7..] == o.fmriprep.value
  {
    match o.fmriprep
    case None => Err(MissingContainerArgs)
    case Some(extra) => Ok(BaseArgs(o) + extra)
  }

  /** Corrected: a missing `--fmriprep` adds no arguments. */
  function ContainerArgs(o: Options): (r: seq<string>)
    ensures o.fmriprep.None? ==> |r| == 7
    ensures o.fmriprep.Some? ==> |r| == 7 + |o.fmriprep.value| && r[7..] == o.fmriprep.value
  {
    BaseArgs(o) + (if o.fmriprep.None? then [] else o.fmriprep.value)
  }

  /** The container is told the BIDS and output directories, the thread
      count and the memory it was given, in that order. */
  lemma ContainerArgsReadBack(o: Options)
    ensures var r := ContainerArgs(o);
      && r[0] == o.bidsDir && r[1] == o.outDir && r[2] == "participant"
      && r[3] == "--nthreads" && ParseInt(r[4]) == Some(o.ncpu)
      && r[5] == "--mem-mb" && ParseInt(r[6]) == Some(o.mem)
  {
    IntRoundTrip(o.ncpu);
    IntRoundTrip(o.mem);
  }

  /** Where the corrected arguments exist, they are the ones the script
      as written builds. */
  lemma ContainerArgsAgree(o: Options)
    requires o.fmriprep.Some?
    ensures ContainerArgsAsWritten(o) == Ok(ContainerArgs(o))
  {
  }

  // ---------------------------------------------------------------------
  // Line 83 of the PBS script (82 of SLURM): the command of each task.

  const LabelFlag := " --participant_label "

  /** The command up to the subject label: PBS puts a space after the setup
      command, SLURM nothing. */
  function CommandHead(s: Scheduler, cmdPre: string, container: string, img: string, args: seq<string>): string {
    (if s.Pbs? then cmdPre + " " else cmdPre) + container + " run " + img + " " + JoinWith(" ", args) + LabelFlag
  }

  /** The shell command the printed script hands to `system` for array
      index `tid`: the command head with `sub[tid]` in place of `%s`. */
  function TaskCommand(head: string, ids: seq<string>, tid: int): (r: Option<string>)
    ensures r.Some? <==> 0 <= tid < |ids|
    ensures r.Some? ==> IsPrefix(head, r.value) && IsSuffix(ids[tid], r.value)
  {
    if 0 <= tid < |ids| then Some(head + ids[tid]) else None
  }

  /** The two schedulers run the same command apart from the way the
      setup command is joined to it. */
  lemma PbsCommandSeparatesSetup(cmdPre: string, container: string, img: string, args: seq<string>)
    ensures CommandHead(Pbs, cmdPre, container, img, args) == cmdPre + " " + CommandHead(Slurm, "", container, img, args)
  {
  }

  /** The PBS command starts with the setup command, a space, and the
      container call. */
  lemma PbsHeadStart(cmdPre: string, container: string, img: string, args: seq<string>)
    ensures IsPrefix(cmdPre + " " + container + " run ", CommandHead(Pbs, cmdPre, container, img, args))
  {
    var p := cmdPre + " " + container + " run ";
    var h := CommandHead(Pbs, cmdPre, container, img, args);
    assert h == p + (img + " " + JoinWith(" ", args) + LabelFlag);
    assert h[..|p|] == p;
  }

  /** As written, the default PBS setup command runs into the container
      call: the shell sees one `module` command whose arguments include the
      container invocation. Corrected, a `;` ends the setup command. */
  lemma DefaultSetupRunsTogether(img: string, args: seq<string>)
    ensures IsPrefix(DefaultPbsCmdPre + " " + "singularity" + " run ",
      CommandHead(Pbs, CmdPreAsWritten(Pbs, DefaultPbsCmdPre), "singularity", img, args))
    ensures IsPrefix(DefaultPbsCmdPre + ";" + " " + "singularity" + " run ",
      CommandHead(Pbs, CmdPre(Pbs, DefaultPbsCmdPre), "singularity", img, args))
  {
    var c := DefaultPbsCmdPre;
    assert !IsSpace(c[0]) && !IsSpace(c[|c| - 1]);
    StripUnpadded(c);
    assert CmdPreAsWritten(Pbs, c) == c;
    assert CmdPre(Pbs, c) == c + ";";
    PbsHeadStart(c, "singularity", img, args);
    PbsHeadStart(c + ";", "singularity", img, args);
  }

  /** Corrected, a setup command without `;` of its own is exactly the
      first command the shell runs. */
  lemma CmdPreSeparates(c: string, container: string, img: string, args: seq<string>)
    requires Strip(c) != "" && !Contains(Strip(c), ";")
    ensures Before(CommandHead(Pbs, CmdPre(Pbs, c), container, img, args), ";") == Strip(c)
  {
    CmdPreTerminated(c);
    SetupCommandFirst(Strip(c), container, img, args);
  }

  lemma CmdPreTerminated(c: string)
    requires Strip(c) != "" && !Contains(Strip(c), ";")
    ensures CmdPre(Pbs, c) == Strip(c) + ";"
  {
    var t := Strip(c);
    OccursAtChar(t, ';', |t| - 1);
  }

  /** A setup command terminated by `;` is the first command of the PBS
      command line. */
  lemma SetupCommandFirst(t: string, container: string, img: string, args: seq<string>)
    requires !Contains(t, ";")
    ensures Before(CommandHead(Pbs, t + ";", container, img, args), ";") == t
  {
    var h := CommandHead(Pbs, t + ";", container, img, args);
    var p := t + ";" + " " + container + " run ";
    PbsHeadStart(t + ";", container, img, args);
    assert h[..|t| + 1] == p[..|t| + 1] == t + ";";
    BeforeTerminator(t, h);
  }

  /** The text before the first `;` of a command list is its first command. */
  lemma BeforeTerminator(t: string, h: string)
    requires !Contains(t, ";")
    requires |h| > |t| && h[..|t| + 1] == t + ";"
    ensures Before(h, ";") == t
  {
    OccursAtChar(h, ';', |t|);
    forall j | 0 <= j < |t| ensures !OccursAt(h, ";", j) {
      OccursAtChar(h, ';', j);
      OccursAtChar(t, ';', j);
      assert h[j] == t[j];
    }
    FirstOccurrence(h, ";", |t|);
    assert h[..|t|] == t;
  }

  // ---------------------------------------------------------------------
  // Line 81 of the PBS script (80 of SLURM) prints the subject list the
  // way Python 2 `repr` renders it, byte by byte.

  function HexDigit(d: int): char
    requires 0 <= d < 16
  {
    "0123456789abcdef"[d]
  }

  /** One character of a string literal in the chosen quote. A character
      stands for one byte: above 0xff only the low byte is shown. */
  function EscapeChar(c: char, quote: char): (r: string)
    ensures |r| > 0
  {
    if c == quote || c == '\\' then ['\\', c]
    else if c == '\t' then "\\t"
    else if c == '\n' then "\\n"
    else if c == '\r' then "\\r"
    else if c < ' ' || c > '~' then
      var b := c as int % 256;
      ['\\', 'x', HexDigit(b / 16), HexDigit(b % 16)]
    else [c]
  }

  function Escape(s: string, quote: char): string {
    if s == [] then [] else EscapeChar(s[0], quote) + Escape(s[1..], quote)
  }

  /** Single quotes, unless the text holds a single quote and no double
      quote. */
  function QuoteOf(s: string): char {
    if Contains(s, "'") && !Contains(s, "\"") then '"' else '\''
  }

  function StrRepr(s: string): string {
    var q := QuoteOf(s);
    [q] + Escape(s, q) + [q]
  }

  function ListRepr(xs: seq<string>): string {
    "[" + JoinWith(", ", Map(xs, StrRepr)) + "]"
  }

  /** A printable ASCII character `repr` shows as itself in single quotes. */
  predicate IsPlain(c: char) {
    ' ' <= c <= '~' && c != '\'' && c != '\\'
  }

  lemma {:induction false} EscapePlain(s: string)
    requires forall i :: 0 <= i < |s| ==> IsPlain(s[i])
    ensures Escape(s, '\'') == s
  {
    if s != [] {
      EscapePlain(s[1..]);
      assert s == [s[0]] + s[1..];
    }
  }

  function Quoted(s: string): string {
    "'" + s + "'"
  }

  /** Text of plain characters is rendered between single quotes as it
      is. */
  lemma PlainRepr(s: string)
    requires forall i :: 0 <= i < |s| ==> IsPlain(s[i])
    ensures StrRepr(s) == Quoted(s)
  {
    assert !Contains(s, "'") by {
      forall j | 0 <= j <= |s| - 1 ensures !OccursAt(s, "'", j) {
        OccursAtChar(s, '\'', j);
      }
    }
    EscapePlain(s);
  }

  /** Plain text around one single quote, with no double quote. */
  predicate OneSingleQuote(a: string, b: string) {
    && (forall i :: 0 <= i < |a| ==> IsPlain(a[i]) && a[i] != '"')
    && (forall i :: 0 <= i < |b| ==> IsPlain(b[i]) && b[i] != '"')
  }

  lemma SwitchesQuote(a: string, b: string)
    requires OneSingleQuote(a, b)
    ensures QuoteOf(a + "'" + b) == '"'
  {
    var s := a + "'" + b;
    assert OccursAt(s, "'", |a|) by {
      assert s[|a|..|a| + 1] == "'";
    }
    forall j | 0 <= j <= |s| - 1 ensures !OccursAt(s, "\"", j) {
      OccursAtChar(s, '"', j);
      if j < |a| {
        assert s[j] == a[j];
      } else if j > |a| {
        assert s[j] == b[j - |a| - 1];
      }
    }
  }

  /** A text holding a single quote and no double quote switches to double
      quotes, keeping the single quote unescaped. */
  lemma SingleQuoteSwitches(a: string, b: string)
    requires OneSingleQuote(a, b)
    ensures StrRepr(a + "'" + b) == "\"" + a + "'" + b + "\""
  {
    var s := a + "'" + b;
    SwitchesQuote(a, b);
    EscapeOneQuote(a, b);
    assert StrRepr(s) == ['"'] + s + ['"'];
  }

  /** In double quotes, plain text around one single quote is shown as it
      is. */
  lemma EscapeOneQuote(a: string, b: string)
    requires OneSingleQuote(a, b)
    ensures Escape(a + "'" + b, '"') == a + "'" + b
  {
    EscapeNoDouble(a);
    EscapeNoDouble(b);
    assert Escape("'", '"') == "'" by {
      assert EscapeChar('\'', '"') == "'";
    }
    EscapeAppend(a, "'", '"');
    EscapeAppend(a + "'", b, '"');
  }

  lemma {:induction false} EscapeNoDouble(s: string)
    requires forall i :: 0 <= i < |s| ==> IsPlain(s[i]) && s[i] != '"'
    ensures Escape(s, '"') == s
  {
    if s != [] {
      EscapeNoDouble(s[1..]);
      assert s == [s[0]] + s[1..];
    }
  }

  lemma {:induction false} EscapeAppend(s: string, t: string, quote: char)
    ensures Escape(s + t, quote) == Escape(s, quote) + Escape(t, quote)
  {
    if s != [] {
      assert (s + t)[0] == s[0];
      assert (s + t)[1..] == s[1..] + t;
      EscapeAppend(s[1..], t, quote);
    } else {
      assert s + t == t;
    }
  }

  lemma LabelIsPlain(s: string)
    requires IsLabel(s)
    ensures forall i :: 0 <= i < |s| ==> IsPlain(s[i])
  {
  }

  /** BIDS labels are plain, so a list of labels prints as quoted labels. */
  lemma LabelListRepr(ids: seq<string>)
    requires forall i :: 0 <= i < |ids| ==> IsLabel(ids[i])
    ensures ListRepr(ids) == "[" + JoinWith(", ", Map(ids, Quoted)) + "]"
  {
    forall i | 0 <= i < |ids| ensures StrRepr(ids[i]) == Quoted(ids[i]) {
      LabelIsPlain(ids[i]);
      PlainRepr(ids[i]);
    }
    assert Map(ids, StrRepr) == Map(ids, Quoted);
  }

  // ---------------------------------------------------------------------
  // Lines 65-83 of the PBS script (62-82 of SLURM): the printed script.

  const Shebang := "#!/usr/bin/env python2"

  /** Where the scheduler writes its logs; the script creates it. */
  function LogDir(s: Scheduler, outDir: Path): Path {
    Join(outDir, if s.Pbs? then "pbs" else "slurm")
  }

  const PbsResources := "#PBS -l select=1:ncpus="
  const PbsArray := "#PBS -J "
  const SlurmCpus := "#SBATCH --cpus-per-task="
  const SlurmMem := "#SBATCH --mem="
  const SlurmTime := "#SBATCH --time="
  const SlurmArray := "#SBATCH --array="

  /** Cores, memory and walltime in a PBS resource list. */
  function PbsAmounts(ncpu: int, mem: int, hrs: int): string {
    IntToString(ncpu) + ":mem=" + PbsMemTime(mem, hrs)
  }

  function PbsMemTime(mem: int, hrs: int): string {
    IntToString(mem) + "mb,walltime=" + Walltime(hrs)
  }

  /** The directive block for `n` subjects. */
  function Directives(s: Scheduler, o: Options, n: int, logDir: Path): seq<string> {
    match s
    case Pbs => [
      Shebang,
      "#PBS -q " + o.queue,
      PbsResources + PbsAmounts(o.ncpu, o.mem, o.hrs),
      PbsArray + ArrayRange(n, o.limit),
      "#PBS -N fmriprep",
      "#PBS -o " + logDir + "/",
      "#PBS -e " + logDir + "/"]
    case Slurm => [
      Shebang,
      "#SBATCH --partition=" + o.queue,
      SlurmCpus + IntToString(o.ncpu),
      SlurmMem + (IntToString(o.mem) + "M"),
      SlurmTime + Walltime(o.hrs),
      SlurmArray + ArrayRange(n, o.limit),
      "#SBATCH --job-name=fmriprep",
      "#SBATCH --output=" + logDir + "/fmriprep_%A_%a.out",
      "#SBATCH --error=" + logDir + "/fmriprep_%A_%a.err"]
  }

  const Preamble := ["", "from os import system,environ", "", "# setup subject array"]

  function IndexVariable(s: Scheduler): string {
    if s.Pbs? then "PBS_ARRAY_INDEX" else "SLURM_ARRAY_TASK_ID"
  }

  /** The printed script: directives, preamble, the subject list, the task
      index and the `system` call whose `%s` the task's label fills. */
  function Script(s: Scheduler, o: Options, ids: seq<string>, args: seq<string>, cmdPre: string, logDir: Path): seq<string> {
    Directives(s, o, |ids|, logDir) + Body(s, ids, CommandHead(s, cmdPre, o.container, o.img, args))
  }

  /** The lines after the directives: the preamble, the subject list, the
      task index and the `system` call. */
  function Body(s: Scheduler, ids: seq<string>, head: string): seq<string> {
    Preamble + [
      "sub = " + ListRepr(ids),
      "tid = int(environ[\"" + IndexVariable(s) + "\"])",
      "system(\"" + head + "%s\" % sub[tid])"]
  }

  /** What the scheduler is asked for. */
  datatype Request = Request(ncpu: int, mem: int, hrs: int, last: int, limit: Option<int>)

  function Field(line: string, prefix: string): Option<string> {
    if IsPrefix(prefix, line) then Some(line[|prefix|..]) else None
  }

  /** The request a scheduler reads from the directive block. */
  function ParseDirectives(s: Scheduler, lines: seq<string>): Option<Request> {
    if |lines| < 6 then None
    else if s.Pbs? then ParsePbs(lines[2], lines[3])
    else ParseSlurm(lines[2], lines[3], lines[4], lines[5])
  }

  /** The `select=1:ncpus=..:mem=..mb,walltime=..` resource list. */
  function ParsePbsResources(res: string): Option<(int, int, int)> {
    var cpu :- NumberBefore(res, ":mem=");
    var mem :- NumberBefore(cpu.1, "mb,walltime=");
    var hrs :- ParseWalltime(mem.1);
    Some((cpu.0, mem.0, hrs))
  }

  function ParsePbs(resources: string, arrayLine: string): Option<Request> {
    var res :- Field(resources, PbsResources);
    var amounts :- ParsePbsResources(res);
    var arr :- Field(arrayLine, PbsArray);
    var range :- ParseArrayRange(arr);
    Some(Request(amounts.0, amounts.1, amounts.2, range.0, range.1))
  }

  function ParseSlurm(cpus: string, memory: string, time: string, arrayLine: string): Option<Request> {
    var cpuField :- Field(cpus, SlurmCpus);
    var cpu :- ParseInt(cpuField);
    var memField :- Field(memory, SlurmMem);
    var mem :- NumberBefore(memField, "M");
    var timeField :- Field(time, SlurmTime);
    var hrs :- ParseWalltime(timeField);
    var arr :- Field(arrayLine, SlurmArray);
    var range :- ParseArrayRange(arr);
    if mem.1 != "" then None else Some(Request(cpu, mem.0, hrs, range.0, range.1))
  }

  lemma FieldOf(prefix: string, v: string)
    ensures Field(prefix + v, prefix) == Some(v)
  {
    assert (prefix + v)[..|prefix|] == prefix;
    assert (prefix + v)[|prefix|..] == v;
  }

  lemma PbsResourcesRoundTrip(ncpu: int, mem: int, hrs: int)
    ensures ParsePbsResources(PbsAmounts(ncpu, mem, hrs)) == Some((ncpu, mem, hrs))
  {
    NumeralThen(ncpu, ":mem=", PbsMemTime(mem, hrs));
    NumeralThen(mem, "mb,walltime=", Walltime(hrs));
    WalltimeRoundTrip(hrs);
  }

  lemma PbsRoundTrip(ncpu: int, mem: int, hrs: int, n: int, limit: Option<int>)
    ensures ParsePbs(
      PbsResources + PbsAmounts(ncpu, mem, hrs),
      PbsArray + ArrayRange(n, limit))
      == Some(Request(ncpu, mem, hrs, n - 1, limit))
  {
    FieldOf(PbsResources, PbsAmounts(ncpu, mem, hrs));
    PbsResourcesRoundTrip(ncpu, mem, hrs);
    FieldOf(PbsArray, ArrayRange(n, limit));
    ArrayRangeRoundTrip(n, limit);
  }

  lemma SlurmMemRoundTrip(mem: int)
    ensures NumberBefore(IntToString(mem) + "M", "M") == Some((mem, ""))
  {
    NumeralThen(mem, "M", "");
    assert IntToString(mem) + "M" + "" == IntToString(mem) + "M";
  }

  lemma SlurmRoundTrip(ncpu: int, mem: int, hrs: int, n: int, limit: Option<int>)
    ensures ParseSlurm(
      SlurmCpus + IntToString(ncpu),
      SlurmMem + (IntToString(mem) + "M"),
      SlurmTime + Walltime(hrs),
      SlurmArray + ArrayRange(n, limit))
      == Some(Request(ncpu, mem, hrs, n - 1, limit))
  {
    FieldOf(SlurmCpus, IntToString(ncpu));
    IntRoundTrip(ncpu);
    FieldOf(SlurmMem, IntToString(mem) + "M");
    SlurmMemRoundTrip(mem);
    FieldOf(SlurmTime, Walltime(hrs));
    WalltimeRoundTrip(hrs);
    FieldOf(SlurmArray, ArrayRange(n, limit));
    ArrayRangeRoundTrip(n, limit);
  }

  /** The scheduler reads back exactly the cores, memory, hours, array
      size and concurrency limit the directives were built from. */
  lemma DirectivesRoundTrip(s: Scheduler, o: Options, n: int, logDir: Path)
    ensures ParseDirectives(s, Directives(s, o, n, logDir)) == Some(Request(o.ncpu, o.mem, o.hrs, n - 1, o.limit))
  {
    if s.Pbs? {
      PbsDirectivesRoundTrip(o, n, logDir);
    } else {
      SlurmDirectivesRoundTrip(o, n, logDir);
    }
  }

  lemma PbsDirectivesRoundTrip(o: Options, n: int, logDir: Path)
    ensures ParseDirectives(Pbs, Directives(Pbs, o, n, logDir)) == Some(Request(o.ncpu, o.mem, o.hrs, n - 1, o.limit))
  {
    var d := Directives(Pbs, o, n, logDir);
    assert |d| == 7;
    assert d[2] == PbsResources + PbsAmounts(o.ncpu, o.mem, o.hrs);
    assert d[3] == PbsArray + ArrayRange(n, o.limit);
    PbsRoundTrip(o.ncpu, o.mem, o.hrs, n, o.limit);
  }

  lemma SlurmDirectivesRoundTrip(o: Options, n: int, logDir: Path)
    ensures ParseDirectives(Slurm, Directives(Slurm, o, n, logDir)) == Some(Request(o.ncpu, o.mem, o.hrs, n - 1, o.limit))
  {
    var d := Directives(Slurm, o, n, logDir);
    assert |d| == 9;
    assert d[2] == SlurmCpus + IntToString(o.ncpu);
    assert d[3] == SlurmMem + (IntToString(o.mem) + "M");
    assert d[4] == SlurmTime + Walltime(o.hrs);
    assert d[5] == SlurmArray + ArrayRange(n, o.limit);
    SlurmRoundTrip(o.ncpu, o.mem, o.hrs, n, o.limit);
  }

  /** Where the subject list stands in the printed script. */
  function ListLine(s: Scheduler): nat {
    if s.Pbs? then 11 else 13
  }

  /** The printed script asks for one array task per subject, prints the
      subject list, and its `system` call runs, for each array index, the
      command head followed by that subject's label. */
  lemma ScriptShape(s: Scheduler, o: Options, ids: seq<string>, args: seq<string>, cmdPre: string, logDir: Path)
    ensures var lines := Script(s, o, ids, args, cmdPre, logDir);
      && |lines| == ListLine(s) + 3
      && ParseDirectives(s, lines) == Some(Request(o.ncpu, o.mem, o.hrs, |ids| - 1, o.limit))
      && lines[ListLine(s)] == "sub = " + ListRepr(ids)
      && lines[ListLine(s) + 2] == "system(\"" + CommandHead(s, cmdPre, o.container, o.img, args) + "%s\" % sub[tid])"
  {
    var d := Directives(s, o, |ids|, logDir);
    var head := CommandHead(s, cmdPre, o.container, o.img, args);
    DirectivesLength(s, o, |ids|, logDir);
    BodyAfter(d, s, ids, head);
    DirectivesRoundTrip(s, o, |ids|, logDir);
    ParseDirectivesIgnoresBody(s, d, Body(s, ids, head));
  }

  lemma DirectivesLength(s: Scheduler, o: Options, n: int, logDir: Path)
    ensures |Directives(s, o, n, logDir)| == ListLine(s) - 4
  {
  }

  /** Where the body's lines stand behind a directive block `d`. */
  lemma BodyAfter(d: seq<string>, s: Scheduler, ids: seq<string>, head: string)
    ensures |d + Body(s, ids, head)| == |d| + 7
    ensures (d + Body(s, ids, head))[|d| + 4] == "sub = " + ListRepr(ids)
    ensures (d + Body(s, ids, head))[|d| + 6] == "system(\"" + head + "%s\" % sub[tid])"
  {
    var b := Body(s, ids, head);
    assert b[4] == "sub = " + ListRepr(ids);
    assert (d + b)[|d| + 4] == b[4];
    assert (d + b)[|d| + 6] == b[6];
  }

  /** The scheduler reads its request from the directive block alone. */
  lemma ParseDirectivesIgnoresBody(s: Scheduler, d: seq<string>, b: seq<string>)
    requires |d| >= 6
    ensures ParseDirectives(s, d + b) == ParseDirectives(s, d)
  {
    assert (d + b)[2] == d[2] && (d + b)[3] == d[3];
    assert (d + b)[4] == d[4] && (d + b)[5] == d[5];
  }

  // ---------------------------------------------------------------------
  // The whole script: lines 29-85 of the PBS script, 29-84 of SLURM.

  /** The directory the script creates and the text it prints. */
  datatype Job = Job(logDir: Path, lines: seq<string>)

  /** As written: the raw-name exclude test, a missing `--fmriprep` raising
      TypeError, and the PBS setup command without its `;`. `tree` is what
      lies below the expanded BIDS directory. */
  function GenerateAsWritten(s: Scheduler, o: Options, home: Path, tree: seq<Dir>): (r: Result<Job, Failure>)
    ensures r.Err? ==> r.error == MissingContainerArgs || r.error == NoSubjectDirs("No sub- dirs found in " + ExpandHome(o.bidsDir, home))
  {
    var e := Expanded(o, home);
    var found :- FindSubjectsAsWritten(e.bidsDir, tree, e.includes, e.excludes);
    var args :- ContainerArgsAsWritten(e);
    var logDir := LogDir(s, e.outDir);
    Ok(Job(logDir, Script(s, e, found.ids, args, CmdPreAsWritten(s, e.cmdPre), logDir)))
  }

  /** The command head the script as written prints once `--fmriprep` is
      given: the setup command without its `;`, then the container call. */
  function HeadAsWritten(s: Scheduler, o: Options, home: Path): string {
    var e := Expanded(o, home);
    CommandHead(s, CmdPreAsWritten(s, o.cmdPre), o.container, o.img, ContainerArgs(e))
  }

  /** The script as written succeeds exactly when the walk with the
      raw-name exclude test finds a subject and `--fmriprep` is given. It
      then logs below the expanded output directory, asks for one array
      task per subject found, prints that list, and its `system` line
      carries the unterminated setup command. */
  lemma GenerateAsWrittenSpec(s: Scheduler, o: Options, home: Path, tree: seq<Dir>)
    ensures
      var e := Expanded(o, home);
      var r := GenerateAsWritten(s, o, home, tree);
      var f := FindSubjectsAsWritten(e.bidsDir, tree, o.includes, o.excludes);
      && (r.Ok? <==> f.Ok? && o.fmriprep.Some?)
      && (r.Ok? ==> r.value.logDir == LogDir(s, ExpandHome(o.outDir, home)))
      && (r.Ok? ==> ParseDirectives(s, r.value.lines) == Some(Request(o.ncpu, o.mem, o.hrs, |f.value.ids| - 1, o.limit)))
      && (r.Ok? ==> r.value.lines[ListLine(s)] == "sub = " + ListRepr(f.value.ids))
      && (r.Ok? ==> r.value.lines[ListLine(s) + 2] == "system(\"" + HeadAsWritten(s, o, home) + "%s\" % sub[tid])")
  {
    var e := Expanded(o, home);
    var f := FindSubjectsAsWritten(e.bidsDir, tree, o.includes, o.excludes);
    if f.Ok? && o.fmriprep.Some? {
      assert ContainerArgsAsWritten(e) == Ok(ContainerArgs(e));
      var logDir := LogDir(s, e.outDir);
      ScriptShape(s, e, f.value.ids, ContainerArgs(e), CmdPreAsWritten(s, e.cmdPre), logDir);
    }
  }

  /** Each array index the directives of the script as written allow
      names one subject the walk as written wants, and that task runs the
      head as written followed by the subject's label; for PBS the head
      opens with the stripped setup command and a space, no `;`. */
  lemma EveryTaskRunsOneSubjectAsWritten(s: Scheduler, o: Options, home: Path, tree: seq<Dir>, tid: int)
    requires GenerateAsWritten(s, o, home, tree).Ok?
    ensures
      var e := Expanded(o, home);
      var f := FindSubjectsAsWritten(e.bidsDir, tree, o.includes, o.excludes);
      var req := ParseDirectives(s, GenerateAsWritten(s, o, home, tree).value.lines);
      var head := HeadAsWritten(s, o, home);
      && f.Ok? && req.Some?
      && (0 <= tid <= req.value.last <==> TaskCommand(head, f.value.ids, tid).Some?)
      && (0 <= tid <= req.value.last ==>
            && TaskCommand(head, f.value.ids, tid) == Some(head + f.value.ids[tid])
            && WantedEntryAsWritten(f.value, tid, e.bidsDir, tree, o.includes, o.excludes))
      && (s.Pbs? ==> IsPrefix(Strip(o.cmdPre) + " " + o.container + " run ", head))
  {
    var e := Expanded(o, home);
    GenerateAsWrittenSpec(s, o, home, tree);
    FindSubjectsAsWrittenSpec(e.bidsDir, tree, o.includes, o.excludes);
    if s.Pbs? {
      PbsHeadStart(Strip(o.cmdPre), o.container, o.img, ContainerArgs(e));
    }
  }

  /** With every option at its default apart from `--fmriprep`, the PBS
      script as written, once it finds a subject, runs the container as
      further arguments of `module load`. */
  lemma DefaultPbsScriptRunsTogether(bidsDir: Path, outDir: Path, home: Path, tree: seq<Dir>, extra: seq<string>)
    requires FindSubjectsAsWritten(ExpandHome(bidsDir, home), tree, None, None).Ok?
    ensures
      var o := Defaults(Pbs, bidsDir, outDir, home).(fmriprep := Some(extra));
      && GenerateAsWritten(Pbs, o, home, tree).Ok?
      && IsPrefix(DefaultPbsCmdPre + " " + "singularity" + " run ", HeadAsWritten(Pbs, o, home))
  {
    var o := Defaults(Pbs, bidsDir, outDir, home).(fmriprep := Some(extra));
    assert o.cmdPre == DefaultPbsCmdPre && o.container == "singularity";
    assert o.includes.None? && o.excludes.None? && o.fmriprep.Some?;
    assert Expanded(o, home).bidsDir == ExpandHome(bidsDir, home);
    DefaultHeadRunsTogether(o, home);
    GenerateAsWrittenOk(Pbs, o, home, tree);
  }

  lemma DefaultHeadRunsTogether(o: Options, home: Path)
    requires o.cmdPre == DefaultPbsCmdPre && o.container == "singularity"
    ensures IsPrefix(DefaultPbsCmdPre + " " + "singularity" + " run ", HeadAsWritten(Pbs, o, home))
  {
    DefaultSetupRunsTogether(o.img, ContainerArgs(Expanded(o, home)));
  }

  lemma GenerateAsWrittenOk(s: Scheduler, o: Options, home: Path, tree: seq<Dir>)
    requires FindSubjectsAsWritten(Expanded(o, home).bidsDir, tree, o.includes, o.excludes).Ok?
    requires o.fmriprep.Some?
    ensures GenerateAsWritten(s, o, home, tree).Ok?
  {
    assert ContainerArgsAsWritten(Expanded(o, home)).Ok?;
  }

  /** Corrected: the exclude test sees bare labels, `--fmriprep` may be
      left out, and the PBS setup command is terminated. */
  function Generate(s: Scheduler, o: Options, home: Path, tree: seq<Dir>): (r: Result<Job, Failure>)
    ensures r.Err? ==> r.error == NoSubjectDirs("No sub- dirs found in " + ExpandHome(o.bidsDir, home))
  {
    var e := Expanded(o, home);
    var found :- FindSubjects(e.bidsDir, tree, e.includes, e.excludes);
    var logDir := LogDir(s, e.outDir);
    Ok(Job(logDir, Script(s, e, found.ids, ContainerArgs(e), CmdPre(s, e.cmdPre), logDir)))
  }

  /** The corrected script fails exactly when no wanted subject directory
      lies below the BIDS directory; otherwise it asks for one array task
      per subject found, prints that list, and logs below the expanded
      output directory. */
  lemma GenerateSpec(s: Scheduler, o: Options, home: Path, tree: seq<Dir>)
    ensures
      var e := Expanded(o, home);
      var r := Generate(s, o, home, tree);
      var f := FindSubjects(e.bidsDir, tree, o.includes, o.excludes);
      && (r.Err? <==> forall c :: !Wanted(e.bidsDir, tree, o.includes, o.excludes, c))
      && (r.Ok? ==> f.Ok? && |f.value.ids| > 0)
      && (r.Ok? ==> r.value.logDir == LogDir(s, ExpandHome(o.outDir, home)))
      && (r.Ok? ==> ParseDirectives(s, r.value.lines) == Some(Request(o.ncpu, o.mem, o.hrs, |f.value.ids| - 1, o.limit)))
      && (r.Ok? ==> r.value.lines[ListLine(s)] == "sub = " + ListRepr(f.value.ids))
  {
    var e := Expanded(o, home);
    FindSubjectsSpec(e.bidsDir, tree, o.includes, o.excludes);
    var f := FindSubjects(e.bidsDir, tree, o.includes, o.excludes);
    if f.Ok? {
      var logDir := LogDir(s, e.outDir);
      ScriptShape(s, e, f.value.ids, ContainerArgs(e), CmdPre(s, e.cmdPre), logDir);
    }
  }

  /** Each array index the directives allow names one subject found, and
      the corrected script runs the container for exactly that label. */
  lemma EveryTaskRunsOneSubject(s: Scheduler, o: Options, home: Path, tree: seq<Dir>, tid: int)
    requires Generate(s, o, home, tree).Ok?
    ensures
      var e := Expanded(o, home);
      var f := FindSubjects(e.bidsDir, tree, o.includes, o.excludes);
      var req := ParseDirectives(s, Generate(s, o, home, tree).value.lines);
      var head := CommandHead(s, CmdPre(s, e.cmdPre), o.container, o.img, ContainerArgs(e));
      && f.Ok? && req.Some?
      && (0 <= tid <= req.value.last <==> TaskCommand(head, f.value.ids, tid).Some?)
      && (0 <= tid <= req.value.last ==>
            && TaskCommand(head, f.value.ids, tid) == Some(head + f.value.ids[tid])
            && WantedEntry(f.value, tid, e.bidsDir, tree, o.includes, o.excludes))
  {
    var e := Expanded(o, home);
    GenerateSpec(s, o, home, tree);
    FindSubjectsSpec(e.bidsDir, tree, o.includes, o.excludes);
  }

  /** Leaving out `--fmriprep` stops the script as written whenever it
      finds subjects, while the corrected one goes on to print its job. */
  lemma MissingArgsStopGeneration(s: Scheduler, o: Options, home: Path, tree: seq<Dir>)
    requires o.fmriprep.None?
    ensures GenerateAsWritten(s, o, home, tree).Err?
    ensures
      var e := Expanded(o, home);
      FindSubjectsAsWritten(e.bidsDir, tree, o.includes, o.excludes).Ok? ==>
        GenerateAsWritten(s, o, home, tree) == Err(MissingContainerArgs)
    ensures
      var e := Expanded(o, home);
      Generate(s, o, home, tree).Ok? <==> FindSubjects(e.bidsDir, tree, o.includes, o.excludes).Ok?
  {
  }
}
