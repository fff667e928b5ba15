/** The BIDS file-name conventions the scripts rely on: the entity tokens,
    the run prefix in front of `_echo-`, and the subject, session and task
    entities parsed out of a prefix. */
module BidsNames {
  import opened Wrappers
  import opened Strings
  import opened Failures

  const EchoToken := "_echo-"
  const SpaceToken := "_space-"
  const TaskToken := "_task-"
  const SessionToken := "ses-"
  const SubjectToken := "sub-"
  const EchoSuffix := "preproc_bold.nii.gz"
  const FuncSuffix := "_preproc_bold.nii.gz"

  /** The three entities parsed out of a run prefix. */
  datatype RunName = RunName(sub: string, ses: Option<string>, task: string)

  /** The name with every `sub-` removed. */
  function StripSub(s: string): string {
    ReplaceAll(s, SubjectToken, "")
  }

  /** The text a greedy capture up to `_echo-` yields: everything before
      the LAST `_echo-`; `None` when the name has none. */
  function EchoPrefix(name: string): (r: Option<string>)
    ensures r.Some? <==> Contains(name, EchoToken)
    ensures r.Some? ==> IsPrefix(r.value, name) && OccursAt(name, EchoToken, |r.value|)
    ensures r.Some? ==> forall j :: |r.value| < j ==> !OccursAt(name, EchoToken, j)
  {
    match LastIndexOf(name, EchoToken)
    case None => None
    case Some(i) => Some(name[..i])
  }

  /** `sub`, `ses` and `run` of one prefix: the first `_`-separated token
      without `sub-`; the text after the first `ses-` up to the next `_`
      (or up to a second `ses-`), if any; `task-` and the text between the
      first and the second `_task-`, whose absence raises. */
  function ParsePrefix(prefix: string): (r: Result<RunName, Failure>)
    ensures r.Err? <==> !Contains(prefix, TaskToken)
    ensures r.Err? ==> r.error == NoTaskEntity(prefix)
    ensures r.Ok? ==> (r.value.ses.None? <==> !Contains(prefix, SessionToken))
    ensures r.Ok? && r.value.ses.Some? ==>
      !Contains(r.value.ses.value, "_") &&
      exists i :: OccursAt(prefix, SessionToken, i) && IsPrefix(r.value.ses.value, prefix[i + |SessionToken|..])
    ensures r.Ok? ==> IsPrefix("task-", r.value.task) && !Contains(r.value.task[5..], TaskToken)
  {
    var first := Before(prefix, "_");
    var ses := match AfterFirst(prefix, SessionToken)
      case None => None
      case Some(rest) =>
        var upToNext := Before(rest, SessionToken);
        Some(Before(upToNext, "_"));
    match SecondField(prefix, TaskToken)
    case None => Err(NoTaskEntity(prefix))
    case Some(t) =>
      assert ("task-" + t)[5..] == t;
      Ok(RunName(StripSub(first), ses, "task-" + t))
  }

  /** The prefix of an image name is what stands before its echo entity,
      whatever follows that entity. */
  lemma EchoPrefixOfName(prefix: string, rest: string)
    requires !Contains(rest, EchoToken)
    ensures EchoPrefix(prefix + EchoToken + rest) == Some(prefix)
  {
    var n := prefix + EchoToken + rest;
    var k := |prefix|;
    assert n[k..k + 6] == EchoToken;
    assert OccursAt(n, EchoToken, k);
    forall j | k < j ensures !OccursAt(n, EchoToken, j) {
      if j < k + 6 {
        assert n[j] == EchoToken[j - k];
        Mismatch(n, EchoToken, j, 0);
      } else if j + 6 <= |n| {
        assert n[j..j + 6] == rest[j - k - 6..j - k];
        assert !OccursAt(rest, EchoToken, j - k - 6);
      }
    }
    assert n[..k] == prefix;
  }

  // ---------------------------------------------------------------------
  // Building a prefix back from its entities.

  predicate IsAlnum(c: char) {
    'a' <= c <= 'z' || 'A' <= c <= 'Z' || '0' <= c <= '9'
  }

  /** A BIDS label: one or more letters and digits. */
  predicate IsLabel(s: string) {
    |s| > 0 && forall i :: 0 <= i < |s| ==> IsAlnum(s[i])
  }

  /** The entities BIDS allows after the task label (`_run-1`, `_acq-fast`,
      ...): empty, or starting with `_`, and repeating neither a session
      nor a task entity. */
  predicate IsEntityTail(tail: string) {
    && (tail == [] || tail[0] == '_')
    && !Contains(tail, SessionToken)
    && !Contains(tail, TaskToken)
  }

  /** The run prefix fMRIPrep writes: `sub-<sub>[_ses-<ses>]_task-<task>`
      followed by the remaining entities. */
  function FormatPrefix(sub: string, ses: Option<string>, task: string, tail: string): string {
    SubjectToken + sub + SessionPart(ses) + TaskToken + task + tail
  }

  /** The `_ses-<ses>` entity, or nothing. */
  function SessionPart(ses: Option<string>): string {
    match ses
    case None => ""
    case Some(e) => "_ses-" + e
  }

  /** A label holds no `_` and no `-`, so no token of the naming scheme
      occurs in it. */
  lemma LabelLacksToken(s: string, t: string, k: nat)
    requires forall i :: 0 <= i < |s| ==> IsAlnum(s[i])
    requires k < |t| && !IsAlnum(t[k])
    ensures !Contains(s, t)
  {
    forall j | 0 <= j <= |s| - |t| ensures !OccursAt(s, t, j) {
      assert j + k < |s|;
    }
  }

  /** The subject field: `sub-<sub>` up to the first `_`, without `sub-`. */
  lemma {:induction false} SubjectOfFormatted(sub: string, rest: string)
    requires IsLabel(sub)
    requires rest != [] && rest[0] == '_'
    ensures StripSub(Before(SubjectToken + sub + rest, "_")) == sub
  {
    var A := SubjectToken + sub;
    var P := A + rest;
    assert P[|A|] == '_';
    OccursAtChar(P, '_', |A|);
    forall j | 0 <= j < |A| ensures !OccursAt(P, "_", j) {
      OccursAtChar(P, '_', j);
      if j >= 4 {
        assert P[j] == sub[j - 4];
      }
    }
    FirstOccurrence(P, "_", |A|);
    assert P[..|A|] == A;
    ReplaceLeading(SubjectToken, sub, "");
    LabelLacksToken(sub, SubjectToken, 3);
    ReplaceAbsent(sub, SubjectToken, "");
  }

  /** The task field: the text after the first `_task-`, which stands
      right after the subject and session. */
  lemma {:induction false} TaskOfFormatted(head: string, task: string, tail: string)
    requires forall j :: 0 <= j < |head| - 1 ==> head[j] != '_' || head[j + 1] != 't'
    requires head != [] ==> head[|head| - 1] != '_'
    requires IsLabel(task) && !Contains(tail, TaskToken)
    ensures SecondField(head + TaskToken + task + tail, TaskToken) == Some(task + tail)
  {
    var rest := task + tail;
    var P := head + TaskToken + rest;
    assert P == head + TaskToken + task + tail;
    TaskTokenFirstAfter(head, rest);
    assert P[|head| + 6..] == rest;
    TaskTokenAbsentAfter(task, tail);
    BeforeAbsent(rest, TaskToken);
  }

  /** No `_task-` starts inside a head that has no `_t` pair and does not
      end in `_`, so the first one is the token written after it. */
  lemma TaskTokenFirstAfter(head: string, rest: string)
    requires forall j :: 0 <= j < |head| - 1 ==> head[j] != '_' || head[j + 1] != 't'
    requires head != [] ==> head[|head| - 1] != '_'
    ensures IndexOf(head + TaskToken + rest, TaskToken) == Some(|head|)
  {
    var P := head + TaskToken + rest;
    var t0 := |head|;
    assert P[t0..t0 + 6] == TaskToken;
    forall j | 0 <= j < t0 ensures !OccursAt(P, TaskToken, j) {
      assert P[j] == head[j];
      if j + 1 < t0 {
        assert P[j + 1] == head[j + 1];
        if P[j] == '_' {
          Mismatch(P, TaskToken, j, 1);
        } else {
          Mismatch(P, TaskToken, j, 0);
        }
      } else {
        Mismatch(P, TaskToken, j, 0);
      }
    }
    FirstOccurrence(P, TaskToken, t0);
  }

  /** A label has no `_`, so `_task-` can only occur in the tail. */
  lemma TaskTokenAbsentAfter(task: string, tail: string)
    requires IsLabel(task) && !Contains(tail, TaskToken)
    ensures !Contains(task + tail, TaskToken)
  {
    var rest := task + tail;
    forall j | 0 <= j <= |rest| - |TaskToken| ensures !OccursAt(rest, TaskToken, j) {
      if j < |task| {
        assert rest[j] == task[j];
        Mismatch(rest, TaskToken, j, 0);
      } else {
        assert rest[j..j + 6] == tail[j - |task|..j - |task| + 6];
        assert !OccursAt(tail, TaskToken, j - |task|);
      }
    }
  }

  /** Without a session entity no `ses-` occurs anywhere in the prefix. */
  lemma {:induction false} NoSessionInFormatted(sub: string, task: string, tail: string)
    requires IsLabel(sub) && IsLabel(task) && IsEntityTail(tail)
    ensures !Contains(FormatPrefix(sub, None, task, tail), SessionToken)
  {
    var P := FormatPrefix(sub, None, task, tail);
    var L := |SubjectToken + sub| + 6 + |task|;
    assert P == SubjectToken + sub + TaskToken + task + tail;
    forall j | 0 <= j <= |P| - 4 ensures !OccursAt(P, SessionToken, j) {
      if j < L {
        NoSessionInHead(sub, task, tail, j);
      } else {
        assert P[j..j + 4] == tail[j - L..j - L + 4];
        assert !OccursAt(tail, SessionToken, j - L);
      }
    }
  }

  /** No `ses-` starts inside the subject and task entities. */
  lemma NoSessionInHead(sub: string, task: string, tail: string, j: int)
    requires IsLabel(sub) && IsLabel(task) && IsEntityTail(tail)
    requires 0 <= j < |SubjectToken + sub| + 6 + |task|
    requires j <= |FormatPrefix(sub, None, task, tail)| - 4
    ensures !OccursAt(FormatPrefix(sub, None, task, tail), SessionToken, j)
  {
    var P := FormatPrefix(sub, None, task, tail);
    var t0 := |SubjectToken + sub|;
    assert P == SubjectToken + sub + (TaskToken + task + tail);
    if j == 0 {
      Mismatch(P, SessionToken, j, 1);
    } else if j + 3 < t0 {
      assert P[j + 3] == sub[j - 1];
      Mismatch(P, SessionToken, j, 3);
    } else {
      NoSessionInTask(SubjectToken + sub, task, tail, j);
    }
  }

  /** Nor can one start in the last three characters of the subject
      entity or inside `_task-<task>`, none of which holds an `s`, an `e`
      and an `s` in a row followed by `-`. */
  lemma NoSessionInTask(A: string, task: string, tail: string, j: int)
    requires IsLabel(task) && IsEntityTail(tail)
    requires 0 < j && |A| <= j + 3 < |A| + 6 + |task| + 3
    requires j <= |A| + 6 + |task| - 1
    requires j + 4 <= |A + (TaskToken + task + tail)|
    ensures !OccursAt(A + (TaskToken + task + tail), SessionToken, j)
  {
    var P := A + (TaskToken + task + tail);
    var t0 := |A|;
    var L := t0 + 6 + |task|;
    assert P[t0..t0 + 6] == TaskToken;
    if j + 3 == t0 + 5 {
      assert P[j] == TaskToken[2];
      Mismatch(P, SessionToken, j, 0);
    } else if j + 3 < t0 + 6 {
      assert P[j + 3] == TaskToken[j + 3 - t0];
      Mismatch(P, SessionToken, j, 3);
    } else if j + 3 < L {
      assert P[j + 3] == task[j + 3 - t0 - 6];
      Mismatch(P, SessionToken, j, 3);
    } else {
      assert P[L] == tail[0];
      Mismatch(P, SessionToken, j, L - j);
    }
  }


  /** With a session entity, the first `ses-` is its own and the session
      label runs up to the `_` of the task entity. */
  lemma {:induction false} SessionOfFormatted(sub: string, e: string, task: string, tail: string)
    requires IsLabel(sub) && IsLabel(e)
    ensures
      var P := FormatPrefix(sub, Some(e), task, tail);
      AfterFirst(P, SessionToken) == Some(e + (TaskToken + task + tail))
  {
    var A := SubjectToken + sub;
    var rest := e + (TaskToken + task + tail);
    var P := FormatPrefix(sub, Some(e), task, tail);
    assert SessionPart(Some(e)) == "_ses-" + e;
    assert P == A + "_ses-" + rest;
    SessionTokenFirstAfter(sub, rest);
  }

  /** Nothing in `sub-<label>_` can start a `ses-`. */
  lemma SessionTokenFirstAfter(sub: string, rest: string)
    requires IsLabel(sub)
    ensures
      var P := SubjectToken + sub + "_ses-" + rest;
      AfterFirst(P, SessionToken) == Some(rest)
  {
    var A := SubjectToken + sub;
    var P := A + "_ses-" + rest;
    var k := |A| + 1;
    assert P[k..k + 4] == SessionToken;
    forall j | 0 <= j < k ensures !OccursAt(P, SessionToken, j) {
      if j == 0 {
        Mismatch(P, SessionToken, j, 1);
      } else if j + 3 < |A| {
        assert P[j + 3] == sub[j - 1];
        Mismatch(P, SessionToken, j, 3);
      } else {
        assert P[j + 3] != '-';
        Mismatch(P, SessionToken, j, 3);
      }
    }
    FirstOccurrence(P, SessionToken, k);
    assert P[k + 4..] == rest;
  }

  /** The session label is the text after `ses-` up to the next `_`. */
  lemma {:induction false} SessionLabel(e: string, rest: string)
    requires IsLabel(e)
    requires |rest| >= 4 && rest[..4] == "_tas"
    ensures Before(Before(e + rest, SessionToken), "_") == e
  {
    var r := e + rest;
    var x := Before(r, SessionToken);
    forall j | 0 <= j <= |e| ensures !OccursAt(r, SessionToken, j) {
      if j + 3 < |e| {
        assert r[j + 3] == e[j + 3];
      } else {
        assert r[j + 3] == rest[j + 3 - |e|];
      }
      Mismatch(r, SessionToken, j, 3);
    }
    assert |x| > |e|;
    assert x[|e|] == '_';
    OccursAtChar(x, '_', |e|);
    forall j | 0 <= j < |e| ensures !OccursAt(x, "_", j) {
      OccursAtChar(x, '_', j);
      assert x[j] == e[j];
    }
    FirstOccurrence(x, "_", |e|);
    assert x[..|e|] == e;
  }

  /** What stands before `_task-` in a formatted prefix never looks like
      the start of `_task-`. */
  lemma FormattedHead(sub: string, ses: Option<string>)
    requires IsLabel(sub)
    requires ses.Some? ==> IsLabel(ses.value)
    ensures
      var head := SubjectToken + sub + SessionPart(ses);
      && (forall j :: 0 <= j < |head| - 1 ==> head[j] != '_' || head[j + 1] != 't')
      && head[|head| - 1] != '_'
  {
    var A := SubjectToken + sub;
    var head := A + SessionPart(ses);
    forall j | 0 <= j < |head| - 1 ensures head[j] != '_' || head[j + 1] != 't' {
      if 4 <= j < |A| {
        assert head[j] == sub[j - 4];
      } else if j == |A| {
        assert head[j + 1] == 's';
      } else if |A| < j < |A| + 5 {
        assert head[j] == "_ses-"[j - |A|];
      } else if j >= |A| + 5 {
        assert head[j] == ses.value[j - |A| - 5];
      }
    }
    if ses.Some? {
      assert head[|head| - 1] == ses.value[|ses.value| - 1];
    } else {
      assert head[|head| - 1] == sub[|sub| - 1];
    }
  }

  /** `ParsePrefix` assembled from its three fields. */
  lemma ParseOfFields(p: string, sub: string, ses: Option<string>, t: string)
    requires StripSub(Before(p, "_")) == sub
    requires SecondField(p, TaskToken) == Some(t)
    requires ses.None? ==> AfterFirst(p, SessionToken) == None
    requires ses.Some? ==> AfterFirst(p, SessionToken).Some?
    requires ses.Some? ==> Before(Before(AfterFirst(p, SessionToken).value, SessionToken), "_") == ses.value
    ensures ParsePrefix(p) == Ok(RunName(sub, ses, "task-" + t))
  {
  }

  lemma SubjectFieldOfFormatted(sub: string, ses: Option<string>, task: string, tail: string)
    requires IsLabel(sub)
    ensures StripSub(Before(FormatPrefix(sub, ses, task, tail), "_")) == sub
  {
    var rest := SessionPart(ses) + TaskToken + task + tail;
    assert FormatPrefix(sub, ses, task, tail) == SubjectToken + sub + rest;
    SubjectOfFormatted(sub, rest);
  }

  lemma TaskFieldOfFormatted(sub: string, ses: Option<string>, task: string, tail: string)
    requires IsLabel(sub) && IsLabel(task) && !Contains(tail, TaskToken)
    requires ses.Some? ==> IsLabel(ses.value)
    ensures SecondField(FormatPrefix(sub, ses, task, tail), TaskToken) == Some(task + tail)
  {
    FormattedHead(sub, ses);
    TaskOfFormatted(SubjectToken + sub + SessionPart(ses), task, tail);
  }

  lemma SessionFieldOfFormatted(sub: string, ses: Option<string>, task: string, tail: string)
    requires IsLabel(sub) && IsLabel(task) && IsEntityTail(tail)
    requires ses.Some? ==> IsLabel(ses.value)
    ensures ses.None? ==> AfterFirst(FormatPrefix(sub, ses, task, tail), SessionToken) == None
    ensures ses.Some? ==> AfterFirst(FormatPrefix(sub, ses, task, tail), SessionToken).Some?
    ensures ses.Some? ==>
      Before(Before(AfterFirst(FormatPrefix(sub, ses, task, tail), SessionToken).value, SessionToken), "_") == ses.value
  {
    match ses {
      case None => NoSessionInFormatted(sub, task, tail);
      case Some(e) =>
        SessionOfFormatted(sub, e, task, tail);
        SessionLabel(e, TaskToken + task + tail);
    }
  }

  /** Parsing a prefix built from valid labels gives back its entities: the
      subject and session labels, and the task field with the entities that
      follow it. */
  lemma ParseFormattedPrefix(sub: string, ses: Option<string>, task: string, tail: string)
    requires IsLabel(sub) && IsLabel(task)
    requires ses.Some? ==> IsLabel(ses.value)
    requires IsEntityTail(tail)
    ensures ParsePrefix(FormatPrefix(sub, ses, task, tail)) == Ok(RunName(sub, ses, "task-" + task + tail))
  {
    var p := FormatPrefix(sub, ses, task, tail);
    var t := task + tail;
    assert "task-" + t == "task-" + task + tail;
    SubjectFieldOfFormatted(sub, ses, task, tail);
    TaskFieldOfFormatted(sub, ses, task, tail);
    SessionFieldOfFormatted(sub, ses, task, tail);
    ParseOfFields(p, sub, ses, t);
  }
}
