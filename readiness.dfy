/**
 * The startup readiness sequence: port check, backend install and launch, model provisioning,
 * then the gateway server. Every outside observation (is the backend reachable, is a binary on
 * the search path, an exit code, the listed models, whether a file exists) is an input, and every
 * effect on the outside world is recorded, in order, as an `Action` in the returned trace.
 */
module Readiness {
  import opened Wrappers
  import opened Text

  const MODEL_NAME: string := "qwen2.5-coder:7b"
  const INSTALLER_URL: string := "https://ollama.com/download/Ollama-darwin.zip"
  /** `retry_seconds` when `main` calls `ensure_ollama_running()`. */
  const DEFAULT_RETRY_SECONDS: nat := 30
  /** The line every stage failure ends with: "log saved at" and the startup log path. */
  const LOG_LABEL: string := "ログ保存先: "

  /** Effects of the startup sequence on the outside world. */
  datatype Action =
    | ProbeHealth        // one `ollama_ok()` request to the backend's tags endpoint
    | RunBrew            // `brew install ollama`
    | WriteSetupFlag     // write the setup-attempted flag file
    | OpenBrowser(url: string)
    | Launch             // open the startup log for appending and spawn `ollama serve`
    | RunCreate          // `ollama create <model> -f Modelfile`
    | WriteReadyFlag     // write the model-ready flag file
    | StartServer        // start the gateway thread (`init_db`, then listen)

  /** What a subprocess run did: raised (timeout, missing executable, ...) or returned an exit code. */
  datatype RunOutcome = Raised(error: string) | Returned(code: int)

  /** Why a stage failed; `Message` renders the diagnostic text. */
  datatype Failure =
    | PortInUse
    | InstallerOpened
    | MissingAfterInstall
    | LaunchRaised(error: string)
    | LaunchTimedOut
    | ModelfileMissing(path: string)
    | AlreadyAttempted
    | CreateFailed
    | CreateRaised(error: string)
    | NotListedAfterCreate
    | ServerTimedOut

  datatype Outcome = Ok | Fail(reason: Failure)

  /** A stage's `(ok, msg)` result together with the effects it had, in order. */
  datatype Step = Step(outcome: Outcome, trace: seq<Action>)

  /** The readiness stage an action belongs to (backend = 1, model = 2, server = 3). */
  function StageOf(a: Action): nat {
    match a
    case RunCreate => 2
    case WriteReadyFlag => 2
    case StartServer => 3
    case _ => 1
  }

  /** Every action of `t` belongs to stage `n`. */
  predicate InStage(t: seq<Action>, n: nat) {
    forall i :: 0 <= i < |t| ==> StageOf(t[i]) == n
  }

  /** The actions of `t` never go back to an earlier stage. */
  predicate StagesInOrder(t: seq<Action>) {
    forall i, j :: 0 <= i < j < |t| ==> StageOf(t[i]) <= StageOf(t[j])
  }

  lemma InStageConcat(a: seq<Action>, b: seq<Action>, n: nat)
    ensures InStage(a + b, n) <==> InStage(a, n) && InStage(b, n)
  {
    if InStage(a, n) && InStage(b, n) {
      forall i | 0 <= i < |a + b| ensures StageOf((a + b)[i]) == n {
        if i >= |a| { assert (a + b)[i] == b[i - |a|]; }
      }
    }
    if InStage(a + b, n) {
      forall i | 0 <= i < |a| ensures StageOf(a[i]) == n {
        assert (a + b)[i] == a[i];
      }
      forall i | 0 <= i < |b| ensures StageOf(b[i]) == n {
        assert (a + b)[|a| + i] == b[i];
      }
    }
  }

  /** A backend part, then a model part, then anything of the server stage, is in stage order. */
  lemma StagesConcat(b: seq<Action>, m: seq<Action>, s: seq<Action>)
    requires InStage(b, 1) && InStage(m, 2) && InStage(s, 3)
    ensures StagesInOrder(b + m + s)
  {
    var t := b + m + s;
    forall i, j | 0 <= i < j < |t| ensures StageOf(t[i]) <= StageOf(t[j]) {
      var si := if i < |b| then 1 else if i < |b| + |m| then 2 else 3;
      var sj := if j < |b| then 1 else if j < |b| + |m| then 2 else 3;
      if i < |b| { assert t[i] == b[i]; }
      else if i < |b| + |m| { assert t[i] == m[i - |b|]; }
      else { assert t[i] == s[i - |b| - |m|]; }
      if j < |b| { assert t[j] == b[j]; }
      else if j < |b| + |m| { assert t[j] == m[j - |b|]; }
      else { assert t[j] == s[j - |b| - |m|]; }
      assert StageOf(t[i]) == si && StageOf(t[j]) == sj;
    }
  }

  /** `k` copies of `a`. */
  function Repeat(a: Action, k: nat): (r: seq<Action>)
    ensures |r| == k && forall i :: 0 <= i < k ==> r[i] == a
  {
    if k == 0 then [] else Repeat(a, k - 1) + [a]
  }

  lemma {:induction false} RepeatCount(a: Action, k: nat)
    ensures multiset(Repeat(a, k))[a] == k
    ensures forall b :: b != a ==> multiset(Repeat(a, k))[b] == 0
  {
    if k > 0 {
      RepeatCount(a, k - 1);
      assert Repeat(a, k) == Repeat(a, k - 1) + [a];
    }
  }

  // ---------------------------------------------------------------------------
  // Diagnostics

  /** The failures the three `ensure_*` stages return (the others are raised by `main` itself). */
  predicate IsStageFailure(f: Failure) {
    !f.PortInUse? && !f.ServerTimedOut?
  }

  /** The part of each diagnostic that says what went wrong. */
  function Reason(f: Failure): string {
    match f
    case PortInUse =>
      "ポート 7100 はすでに使用されています。別プロセスを停止後に再実行してください。"
    case InstallerOpened => InstallerPrefix() + INSTALLER_URL
    case MissingAfterInstall => "Ollama インストール後もコマンドが見つかりません。"
    case LaunchRaised(e) => "Ollama の自動起動に失敗しました: " + e
    case LaunchTimedOut => "Ollama 起動待ちがタイムアウトしました。"
    case ModelfileMissing(path) => "同梱モデルが見つかりません: " + path
    case AlreadyAttempted => "モデル『" + MODEL_NAME + "』が未登録ですが初回自動準備は実施済みです。"
    case CreateFailed => "モデル準備に失敗しました。"
    case CreateRaised(e) => "モデル準備でエラーが発生しました: " + e
    case NotListedAfterCreate => "モデル準備後も登録確認できませんでした。"
    case ServerTimedOut => "Flask 起動待ちがタイムアウトしました。"
  }

  /** The install failure's text up to the installer URL. */
  function InstallerPrefix(): string {
    "Ollama が見つかりません。初回セットアップを試みましたが完了できませんでした。\n"
    + "ブラウザでインストーラを開いてください: "
  }

  /**
   * The diagnostic text of each failure, with the startup log path `log`: a stage failure ends
   * with a line giving the log path; the port and server failures of `main` do not.
   */
  function Message(f: Failure, log: string): string {
    if IsStageFailure(f) then Reason(f) + "\n" + LOG_LABEL + log else Reason(f)
  }

  /** A string built as `p + t` ends with `t`. */
  lemma EndsWithAppended(p: string, t: string)
    ensures EndsWith(p + t, t)
  {
    assert (p + t)[|p|..] == t;
  }

  /** The install failure message names the installer URL. */
  lemma InstallerMessageNamesUrl(log: string)
    ensures Contains(Message(InstallerOpened, log), INSTALLER_URL)
  {
    var t := "\n" + LOG_LABEL + log;
    assert Message(InstallerOpened, log) == InstallerPrefix() + INSTALLER_URL + t;
    ContainsInMiddle(InstallerPrefix(), INSTALLER_URL, t);
  }

  /**
   * The diagnostics that carry a detail name it: an exception's text ends the launch and create
   * failures, the Modelfile path ends the missing-Modelfile failure, and the model's name is in
   * the already-attempted failure.
   */
  lemma ReasonNamesDetail(f: Failure)
    ensures f.LaunchRaised? || f.CreateRaised? ==> EndsWith(Reason(f), f.error)
    ensures f.ModelfileMissing? ==> EndsWith(Reason(f), f.path)
    ensures f.AlreadyAttempted? ==> Contains(Reason(f), MODEL_NAME)
  {
    match f
    case LaunchRaised(e) => EndsWithAppended("Ollama の自動起動に失敗しました: ", e);
    case CreateRaised(e) => EndsWithAppended("モデル準備でエラーが発生しました: ", e);
    case ModelfileMissing(path) => EndsWithAppended("同梱モデルが見つかりません: ", path);
    case AlreadyAttempted => ContainsInMiddle("モデル『", MODEL_NAME, "』が未登録ですが初回自動準備は実施済みです。");
    case _ =>
  }

  /** Every stage failure message ends with the log pointer; the install failure also names the installer URL. */
  lemma MessageNamesLog(f: Failure, log: string)
    requires IsStageFailure(f)
    ensures EndsWith(Message(f, log), LOG_LABEL + log)
    ensures f == InstallerOpened ==> Contains(Message(f, log), INSTALLER_URL)
  {
    assert Message(f, log) == (Reason(f) + "\n") + (LOG_LABEL + log);
    EndsWithAppended(Reason(f) + "\n", LOG_LABEL + log);
    if f == InstallerOpened {
      InstallerMessageNamesUrl(log);
    }
  }

  /** What `fail_and_exit` prints: the message, then the log pointer, each on its own line. */
  function ExitText(f: Failure, log: string): (r: string)
    ensures EndsWith(r, LOG_LABEL + log + "\n")
    ensures |Message(f, log)| < |r| && r[..|Message(f, log)|] == Message(f, log)
    ensures r[|Message(f, log)|] == '\n'
    ensures |r| == |Message(f, log)| + 1 + |LOG_LABEL + log + "\n"|
  {
    EndsWithAppended(Message(f, log) + "\n", LOG_LABEL + log + "\n");
    (Message(f, log) + "\n") + (LOG_LABEL + log + "\n")
  }

  // ---------------------------------------------------------------------------
  // ensure_ollama_installed

  /** Observations made by `ensure_ollama_installed`. */
  datatype InstallEnv = InstallEnv(
    ollamaOnPath: bool,     // `shutil.which("ollama")` on entry
    brewOnPath: bool,       // `shutil.which("brew")`
    brew: RunOutcome,       // the `brew install ollama` run
    ollamaAfterBrew: bool)  // `shutil.which("ollama")` after a brew run that exited 0

  /**
   * `ensure_ollama_installed`. Succeeds exactly when the binary is already there, or brew is there,
   * exits 0 and the binary is found afterwards. The setup flag is written whenever the brew run
   * returns, whatever its exit code, and not when it raises. Every other path opens the installer
   * URL in the browser (the result of that call is discarded) and fails.
   */
  function EnsureOllamaInstalled(env: InstallEnv): (r: Step)
    ensures r.outcome == Ok <==>
      env.ollamaOnPath || (env.brewOnPath && env.brew == Returned(0) && env.ollamaAfterBrew)
    ensures r.outcome.Fail? ==> r.outcome.reason == InstallerOpened
    ensures env.ollamaOnPath ==> r.trace == []
    ensures !env.ollamaOnPath ==>
      r.trace == (if env.brewOnPath then [RunBrew] + (if env.brew.Returned? then [WriteSetupFlag] else []) else [])
                 + (if r.outcome.Fail? then [OpenBrowser(INSTALLER_URL)] else [])
  {
    if env.ollamaOnPath then Step(Ok, [])
    else
      var attempt :=
        if !env.brewOnPath then []
        else match env.brew
          case Raised(_) => [RunBrew]
          case Returned(_) => [RunBrew, WriteSetupFlag];
      if env.brewOnPath && env.brew == Returned(0) && env.ollamaAfterBrew then Step(Ok, attempt)
      else Step(Fail(InstallerOpened), attempt + [OpenBrowser(INSTALLER_URL)])
  }

  /**
   * The effects of `ensure_ollama_installed`: brew runs exactly when the binary is missing and
   * brew is there; the setup flag is written exactly when that run returns; the installer URL
   * is opened exactly on failure, as the last effect.
   */
  lemma InstallEffects(env: InstallEnv)
    ensures var r := EnsureOllamaInstalled(env);
      (RunBrew in r.trace <==> !env.ollamaOnPath && env.brewOnPath)
      && (WriteSetupFlag in r.trace <==> !env.ollamaOnPath && env.brewOnPath && env.brew.Returned?)
      && (OpenBrowser(INSTALLER_URL) in r.trace <==> r.outcome.Fail?)
      && (r.outcome.Fail? ==> r.trace[|r.trace| - 1] == OpenBrowser(INSTALLER_URL))
  {
    var r := EnsureOllamaInstalled(env);
    var u := OpenBrowser(INSTALLER_URL);
    if env.ollamaOnPath {
    } else if !env.brewOnPath {
      assert r.trace == [u];
    } else if env.brew.Raised? {
      assert r.trace == [RunBrew, u];
    } else if r.outcome.Fail? {
      assert r.trace == [RunBrew, WriteSetupFlag, u];
    } else {
      assert r.trace == [RunBrew, WriteSetupFlag];
    }
  }

  /** Counts and stage of a trace shaped like the install stage's: brew run, flag, browser, each optional. */
  lemma AttemptCounts(brew: bool, flag: bool, browser: bool)
    ensures var t := (if brew then [RunBrew] + (if flag then [WriteSetupFlag] else []) else [])
                     + (if browser then [OpenBrowser(INSTALLER_URL)] else []);
      multiset(t)[RunBrew] <= 1 && multiset(t)[ProbeHealth] == 0 && multiset(t)[Launch] == 0
      && InStage(t, 1)
  {
    var a := if brew then [RunBrew] + (if flag then [WriteSetupFlag] else []) else [];
    var b := if browser then [OpenBrowser(INSTALLER_URL)] else [];
    assert multiset(a + b) == multiset(a) + multiset(b);
    InStageConcat(a, b, 1);
  }

  /** `ensure_ollama_installed` runs brew at most once and does nothing of a later stage. */
  lemma InstallCounts(env: InstallEnv)
    ensures var r := EnsureOllamaInstalled(env);
      multiset(r.trace)[RunBrew] <= 1
      && multiset(r.trace)[ProbeHealth] == 0 && multiset(r.trace)[Launch] == 0
      && InStage(r.trace, 1)
  {
    if !env.ollamaOnPath {
      AttemptCounts(env.brewOnPath, env.brew.Returned?, EnsureOllamaInstalled(env).outcome.Fail?);
    }
  }

  // ---------------------------------------------------------------------------
  // ensure_ollama_running

  /** Observations made by `ensure_ollama_running`. */
  datatype LaunchEnv = LaunchEnv(
    healthyAtEntry: bool,         // the first `ollama_ok()`
    ollamaOnPath: bool,           // `shutil.which("ollama")`
    install: InstallEnv,          // what `ensure_ollama_installed` observes, if it is called
    ollamaAfterInstall: bool,     // `shutil.which("ollama")` after a successful install
    launchError: Option<string>,  // the exception raised while launching `ollama serve`, if any
    polls: nat -> bool)           // the answer of the i-th `ollama_ok()` after the launch

  /**
   * The polling loop from the `i`-th probe on, for `n` probes in all: the outcome and the number
   * of probes made. It stops at the first healthy probe and times out when none of them is.
   */
  function PollFrom(polls: nat -> bool, i: nat, n: nat): (r: (Outcome, nat))
    requires i <= n
    decreases n - i
    ensures r.1 <= n - i
    ensures r.0 == Ok <==> exists j :: i <= j < n && polls(j)
    ensures r.0 == Ok ==> 1 <= r.1 && polls(i + r.1 - 1) && forall j :: i <= j < i + r.1 - 1 ==> !polls(j)
    ensures r.0 != Ok ==> r.0 == Fail(LaunchTimedOut) && r.1 == n - i
  {
    if i == n then (Fail(LaunchTimedOut), 0)
    else if polls(i) then (Ok, 1)
    else
      var rest := PollFrom(polls, i + 1, n);
      (rest.0, rest.1 + 1)
  }

  /** Skipping `k` unhealthy probes: the loop from 0 is the loop from `k` after `k` more probes. */
  lemma {:induction false} PollSkip(polls: nat -> bool, k: nat, n: nat)
    requires k <= n
    requires forall j :: 0 <= j < k ==> !polls(j)
    ensures PollFrom(polls, 0, n) == (PollFrom(polls, k, n).0, PollFrom(polls, k, n).1 + k)
  {
    if k > 0 {
      PollSkip(polls, k - 1, n);
    }
  }

  /** How `ensure_ollama_running` gets a binary: already there, or via `ensure_ollama_installed` and a re-lookup. */
  function LocateBinary(env: LaunchEnv): (r: Step)
    ensures r.outcome.Fail? ==> r.outcome.reason in {InstallerOpened, MissingAfterInstall}
    ensures env.ollamaOnPath ==> r == Step(Ok, [])
    ensures !env.ollamaOnPath ==> r.trace == EnsureOllamaInstalled(env.install).trace
    ensures r.outcome == Ok <==>
      env.ollamaOnPath || (EnsureOllamaInstalled(env.install).outcome == Ok && env.ollamaAfterInstall)
    ensures !env.ollamaOnPath && EnsureOllamaInstalled(env.install).outcome.Fail? ==>
      r == EnsureOllamaInstalled(env.install)
    ensures !env.ollamaOnPath && EnsureOllamaInstalled(env.install).outcome == Ok && !env.ollamaAfterInstall ==>
      r.outcome == Fail(MissingAfterInstall)
  {
    if env.ollamaOnPath then Step(Ok, [])
    else
      var inst := EnsureOllamaInstalled(env.install);
      if inst.outcome.Fail? then inst
      else if !env.ollamaAfterInstall then Step(Fail(MissingAfterInstall), inst.trace)
      else Step(Ok, inst.trace)
  }

  /**
   * `ensure_ollama_running(retry_seconds)` as a specification. A reachable backend is reused:
   * one probe and nothing else. Otherwise the binary is located (installing it if need be), the
   * backend is launched at most once, and it is probed at most `retrySeconds` times; the first
   * healthy probe succeeds and no healthy probe is a timeout.
   */
  function OllamaRunning(env: LaunchEnv, retrySeconds: nat): (r: Step)
    ensures env.healthyAtEntry ==> r == Step(Ok, [ProbeHealth])
    ensures r.outcome == Ok <==>
      env.healthyAtEntry
      || (LocateBinary(env).outcome == Ok && env.launchError == None
          && exists j :: 0 <= j < retrySeconds && env.polls(j))
    ensures 1 <= |r.trace| && r.trace[0] == ProbeHealth
    ensures !env.healthyAtEntry && LocateBinary(env).outcome.Fail? ==>
      r == Step(LocateBinary(env).outcome, [ProbeHealth] + LocateBinary(env).trace)
    ensures !env.healthyAtEntry && LocateBinary(env).outcome == Ok && env.launchError.Some? ==>
      r == Step(Fail(LaunchRaised(env.launchError.value)), [ProbeHealth] + LocateBinary(env).trace + [Launch])
    ensures !env.healthyAtEntry && LocateBinary(env).outcome == Ok && env.launchError == None ==>
      r.outcome == PollFrom(env.polls, 0, retrySeconds).0
      && r.trace == [ProbeHealth] + LocateBinary(env).trace + [Launch]
                    + Repeat(ProbeHealth, PollFrom(env.polls, 0, retrySeconds).1)
  {
    if env.healthyAtEntry then Step(Ok, [ProbeHealth])
    else
      var located := LocateBinary(env);
      if located.outcome.Fail? then Step(located.outcome, [ProbeHealth] + located.trace)
      else match env.launchError
        case Some(e) => Step(Fail(LaunchRaised(e)), [ProbeHealth] + located.trace + [Launch])
        case None =>
          var (o, k) := PollFrom(env.polls, 0, retrySeconds);
          Step(o, [ProbeHealth] + located.trace + [Launch] + Repeat(ProbeHealth, k))
  }

  /** Locating the binary runs brew at most once, and neither probes nor launches. */
  lemma LocateEffects(env: LaunchEnv)
    ensures var t := LocateBinary(env).trace;
      multiset(t)[RunBrew] <= 1 && multiset(t)[ProbeHealth] == 0 && multiset(t)[Launch] == 0
      && Launch !in t && InStage(t, 1)
  {
    if !env.ollamaOnPath {
      InstallCounts(env.install);
    }
  }

  /**
   * `ensure_ollama_running` launches exactly when the backend did not answer and the binary was
   * located, and does nothing of a later stage.
   */
  lemma OllamaRunningEffects(env: LaunchEnv, retrySeconds: nat)
    ensures var r := OllamaRunning(env, retrySeconds);
      (Launch in r.trace <==> !env.healthyAtEntry && LocateBinary(env).outcome == Ok)
      && InStage(r.trace, 1)
  {
    if !env.healthyAtEntry {
      var t := LocateBinary(env).trace;
      LocateEffects(env);
      InStageConcat([ProbeHealth], t, 1);
      InStageConcat([ProbeHealth] + t, [Launch], 1);
      if LocateBinary(env).outcome == Ok && env.launchError == None {
        var k := PollFrom(env.polls, 0, retrySeconds).1;
        InStageConcat([ProbeHealth] + t + [Launch], Repeat(ProbeHealth, k), 1);
        RepeatCount(ProbeHealth, k);
        assert Launch !in Repeat(ProbeHealth, k);
      }
    }
  }

  /** Effect counts of a trace that probes, locates the binary (effects `t`), launches and polls `k` times. */
  lemma LaunchedCounts(t: seq<Action>, k: nat)
    requires multiset(t)[ProbeHealth] == 0 && multiset(t)[Launch] == 0
    ensures var m := multiset([ProbeHealth] + t + [Launch] + Repeat(ProbeHealth, k));
      m[Launch] == 1 && m[ProbeHealth] == 1 + k && m[RunBrew] == multiset(t)[RunBrew]
  {
    RepeatCount(ProbeHealth, k);
    assert multiset([ProbeHealth] + t + [Launch] + Repeat(ProbeHealth, k))
        == multiset([ProbeHealth]) + multiset(t) + multiset([Launch]) + multiset(Repeat(ProbeHealth, k));
  }

  /** The bounds of `ensure_ollama_running`: at most one launch, at most `retrySeconds` probes after it. */
  lemma OllamaRunningBounds(env: LaunchEnv, retrySeconds: nat)
    ensures var r := OllamaRunning(env, retrySeconds);
      multiset(r.trace)[Launch] <= 1
      && multiset(r.trace)[ProbeHealth] <= 1 + retrySeconds
      && multiset(r.trace)[RunBrew] <= 1
      && (r.outcome == Fail(LaunchTimedOut) ==> multiset(r.trace)[ProbeHealth] == 1 + retrySeconds)
  {
    if !env.healthyAtEntry {
      var t := LocateBinary(env).trace;
      LocateEffects(env);
      if LocateBinary(env).outcome.Fail? {
        assert multiset([ProbeHealth] + t) == multiset([ProbeHealth]) + multiset(t);
      } else if env.launchError.Some? {
        assert multiset([ProbeHealth] + t + [Launch]) == multiset([ProbeHealth]) + multiset(t) + multiset([Launch]);
      } else {
        LaunchedCounts(t, PollFrom(env.polls, 0, retrySeconds).1);
      }
    }
  }

  /** Every failure of `ensure_ollama_running` carries the log pointer. */
  lemma OllamaRunningFailureNamesLog(env: LaunchEnv, retrySeconds: nat, log: string)
    requires OllamaRunning(env, retrySeconds).outcome.Fail?
    ensures var f := OllamaRunning(env, retrySeconds).outcome.reason;
      IsStageFailure(f) && EndsWith(Message(f, log), LOG_LABEL + log)
  {
    MessageNamesLog(OllamaRunning(env, retrySeconds).outcome.reason, log);
  }

  /** An install that reports success while the binary is still missing fails and launches nothing. */
  lemma InstalledButMissing(env: LaunchEnv, retrySeconds: nat)
    requires !env.healthyAtEntry && !env.ollamaOnPath
    requires EnsureOllamaInstalled(env.install).outcome == Ok && !env.ollamaAfterInstall
    ensures OllamaRunning(env, retrySeconds).outcome == Fail(MissingAfterInstall)
    ensures Launch !in OllamaRunning(env, retrySeconds).trace
  {
    OllamaRunningEffects(env, retrySeconds);
  }

  /**
   * `ensure_ollama_running` as the code runs it: the polling loop probes once per round, for
   * `retrySeconds` rounds at most, and returns on the first healthy probe.
   */
  method EnsureOllamaRunning(env: LaunchEnv, retrySeconds: nat) returns (outcome: Outcome, trace: seq<Action>)
    ensures Step(outcome, trace) == OllamaRunning(env, retrySeconds)
  {
    trace := [ProbeHealth];
    if env.healthyAtEntry {
      return Ok, trace;
    }
    var located := LocateBinary(env);
    trace := trace + located.trace;
    if located.outcome.Fail? {
      return located.outcome, trace;
    }
    trace := trace + [Launch];
    if env.launchError.Some? {
      return Fail(LaunchRaised(env.launchError.value)), trace;
    }
    ghost var launched := trace;
    var i := 0;
    while i < retrySeconds
      invariant 0 <= i <= retrySeconds
      invariant forall j :: 0 <= j < i ==> !env.polls(j)
      invariant trace == launched + Repeat(ProbeHealth, i)
    {
      trace := trace + [ProbeHealth];
      if env.polls(i) {
        PollSkip(env.polls, i, retrySeconds);
        return Ok, trace;
      }
      i := i + 1;
    }
    PollSkip(env.polls, retrySeconds, retrySeconds);
    outcome := Fail(LaunchTimedOut);
  }

  // ---------------------------------------------------------------------------
  // ensure_model_ready

  /** Observations made by `ensure_model_ready`. */
  datatype ModelEnv = ModelEnv(
    listedBefore: seq<string>,  // `list_models()` on entry ([] when the request fails)
    resourceBase: string,       // the application's resource directory
    modelfileExists: bool,
    readyFlagExists: bool,
    create: RunOutcome,         // the `ollama create` run
    listedAfter: seq<string>)   // `list_models()` after a create that exited 0

  /** The bundled Modelfile: `<resource base>/bundled_models/<model name>/Modelfile`. */
  function ModelfilePath(resourceBase: string): (p: string)
    ensures |resourceBase| < |p| && p[..|resourceBase|] == resourceBase
    ensures EndsWith(p, "/" + MODEL_NAME + "/Modelfile")
  {
    EndsWithAppended(resourceBase + "/bundled_models", "/" + MODEL_NAME + "/Modelfile");
    assert resourceBase + "/bundled_models/" + MODEL_NAME + "/Modelfile"
        == (resourceBase + "/bundled_models") + ("/" + MODEL_NAME + "/Modelfile");
    resourceBase + "/bundled_models/" + MODEL_NAME + "/Modelfile"
  }

  /**
   * `ensure_model_ready`. `ollama create` runs exactly when the model is not listed, the Modelfile
   * exists and the ready flag is absent; the ready flag is written exactly on the two success
   * paths; success after a create needs exit code 0 and the model listed on the re-query.
   */
  function EnsureModelReady(env: ModelEnv): (r: Step)
    ensures r.outcome == Ok <==>
      MODEL_NAME in env.listedBefore
      || (env.modelfileExists && !env.readyFlagExists && env.create == Returned(0)
          && MODEL_NAME in env.listedAfter)
    ensures MODEL_NAME in env.listedBefore ==> r == Step(Ok, [WriteReadyFlag])
    ensures MODEL_NAME !in env.listedBefore && !env.modelfileExists ==>
      r == Step(Fail(ModelfileMissing(ModelfilePath(env.resourceBase))), [])
    ensures MODEL_NAME !in env.listedBefore && env.modelfileExists && env.readyFlagExists ==>
      r == Step(Fail(AlreadyAttempted), [])
    ensures MODEL_NAME !in env.listedBefore && env.modelfileExists && !env.readyFlagExists ==>
      match env.create
      case Raised(e) => r == Step(Fail(CreateRaised(e)), [RunCreate])
      case Returned(c) =>
        if c != 0 then r == Step(Fail(CreateFailed), [RunCreate])
        else r.outcome == (if MODEL_NAME in env.listedAfter then Ok else Fail(NotListedAfterCreate))
             && r.trace == [RunCreate] + (if r.outcome == Ok then [WriteReadyFlag] else [])
  {
    if MODEL_NAME in env.listedBefore then Step(Ok, [WriteReadyFlag])
    else if !env.modelfileExists then Step(Fail(ModelfileMissing(ModelfilePath(env.resourceBase))), [])
    else if env.readyFlagExists then Step(Fail(AlreadyAttempted), [])
    else match env.create
      case Raised(e) => Step(Fail(CreateRaised(e)), [RunCreate])
      case Returned(code) =>
        if code != 0 then Step(Fail(CreateFailed), [RunCreate])
        else if MODEL_NAME in env.listedAfter then Step(Ok, [RunCreate, WriteReadyFlag])
        else Step(Fail(NotListedAfterCreate), [RunCreate])
  }

  /**
   * The effects of `ensure_model_ready`: `ollama create` runs at most once, exactly when the model
   * is not listed, the Modelfile exists and the ready flag is absent; the ready flag is written
   * at most once, exactly on success; every failure is a stage failure; nothing of another stage.
   */
  lemma ModelReadyEffects(env: ModelEnv)
    ensures var r := EnsureModelReady(env);
      (RunCreate in r.trace <==> MODEL_NAME !in env.listedBefore && env.modelfileExists && !env.readyFlagExists)
      && (WriteReadyFlag in r.trace <==> r.outcome == Ok)
      && multiset(r.trace)[RunCreate] <= 1 && multiset(r.trace)[WriteReadyFlag] <= 1
      && InStage(r.trace, 2)
      && (r.outcome.Fail? ==> IsStageFailure(r.outcome.reason))
  {
  }

  /** Whether the ready flag exists after a run of `ensure_model_ready` that started with `env`. */
  function ReadyFlagAfter(env: ModelEnv): bool {
    env.readyFlagExists || WriteReadyFlag in EnsureModelReady(env).trace
  }

  /**
   * A failed create leaves no flag behind, so the next process start, observing the same missing
   * model and Modelfile, runs `ollama create` again.
   */
  lemma CreateRetriedAfterFailure(first: ModelEnv, next: ModelEnv)
    requires RunCreate in EnsureModelReady(first).trace && EnsureModelReady(first).outcome.Fail?
    requires next.readyFlagExists == ReadyFlagAfter(first)
    requires MODEL_NAME !in next.listedBefore && next.modelfileExists
    ensures RunCreate in EnsureModelReady(next).trace
  {
    ModelReadyEffects(first);
    ModelReadyEffects(next);
  }

  /** Once the ready flag exists, a start that finds the model missing never runs `ollama create`. */
  lemma NoCreateOnceFlagged(first: ModelEnv, next: ModelEnv)
    requires ReadyFlagAfter(first) && next.readyFlagExists == ReadyFlagAfter(first)
    ensures RunCreate !in EnsureModelReady(next).trace
  {
    ModelReadyEffects(first);
    ModelReadyEffects(next);
  }

  // ---------------------------------------------------------------------------
  // main

  /** Observations made by `main` and the stages it calls. */
  datatype StartupEnv = StartupEnv(
    portInUse: bool,        // `_port_in_use(7100)`
    backend: LaunchEnv,
    model: ModelEnv,
    serverReachable: bool)  // `_wait_server(7100, 30)`

  /**
   * `main` up to the hand-off to the window: the port check, then `ensure_ollama_running()`, then
   * `ensure_model_ready()`, then the server thread; the first failure exits (`fail_and_exit`) and
   * nothing of a later stage happens. The trace never goes back to an earlier stage.
   */
  function Startup(env: StartupEnv): (r: Step)
    ensures env.portInUse ==> r == Step(Fail(PortInUse), [])
    ensures r.outcome == Ok <==>
      !env.portInUse && OllamaRunning(env.backend, DEFAULT_RETRY_SECONDS).outcome == Ok
      && EnsureModelReady(env.model).outcome == Ok && env.serverReachable
    ensures !env.portInUse && OllamaRunning(env.backend, DEFAULT_RETRY_SECONDS).outcome.Fail? ==>
      r == OllamaRunning(env.backend, DEFAULT_RETRY_SECONDS)
    ensures (!env.portInUse && OllamaRunning(env.backend, DEFAULT_RETRY_SECONDS).outcome == Ok
             && EnsureModelReady(env.model).outcome.Fail?) ==>
      r == Step(EnsureModelReady(env.model).outcome,
                OllamaRunning(env.backend, DEFAULT_RETRY_SECONDS).trace + EnsureModelReady(env.model).trace)
    ensures (!env.portInUse && OllamaRunning(env.backend, DEFAULT_RETRY_SECONDS).outcome == Ok
             && EnsureModelReady(env.model).outcome == Ok) ==>
      r.trace == OllamaRunning(env.backend, DEFAULT_RETRY_SECONDS).trace + EnsureModelReady(env.model).trace + [StartServer]
      && r.outcome == (if env.serverReachable then Ok else Fail(ServerTimedOut))
  {
    if env.portInUse then Step(Fail(PortInUse), [])
    else
      var backend := OllamaRunning(env.backend, DEFAULT_RETRY_SECONDS);
      if backend.outcome.Fail? then backend
      else
        var model := EnsureModelReady(env.model);
        if model.outcome.Fail? then Step(model.outcome, backend.trace + model.trace)
        else
          var trace := backend.trace + model.trace + [StartServer];
          if env.serverReachable then Step(Ok, trace) else Step(Fail(ServerTimedOut), trace)
  }

  /**
   * The startup trace never goes back to an earlier stage, and a backend that cannot be made
   * ready leaves nothing but stage-1 actions behind.
   */
  lemma StartupStages(env: StartupEnv)
    ensures StagesInOrder(Startup(env).trace)
    ensures OllamaRunning(env.backend, DEFAULT_RETRY_SECONDS).outcome.Fail? ==> InStage(Startup(env).trace, 1)
  {
    if !env.portInUse {
      var backend := OllamaRunning(env.backend, DEFAULT_RETRY_SECONDS);
      var model := EnsureModelReady(env.model);
      OllamaRunningEffects(env.backend, DEFAULT_RETRY_SECONDS);
      ModelReadyEffects(env.model);
      if backend.outcome.Fail? {
        StagesConcat(backend.trace, [], []);
        assert backend.trace + [] + [] == backend.trace;
      } else if model.outcome.Fail? {
        StagesConcat(backend.trace, model.trace, []);
        assert backend.trace + model.trace + [] == backend.trace + model.trace;
      } else {
        StagesConcat(backend.trace, model.trace, [StartServer]);
      }
    }
  }

  /** The gateway server is started exactly when both readiness stages succeed. */
  lemma StartupServerStart(env: StartupEnv)
    ensures StartServer in Startup(env).trace <==>
      !env.portInUse && OllamaRunning(env.backend, DEFAULT_RETRY_SECONDS).outcome == Ok
      && EnsureModelReady(env.model).outcome == Ok
  {
    if !env.portInUse {
      var backend := OllamaRunning(env.backend, DEFAULT_RETRY_SECONDS);
      var model := EnsureModelReady(env.model);
      OllamaRunningEffects(env.backend, DEFAULT_RETRY_SECONDS);
      ModelReadyEffects(env.model);
      assert StartServer !in backend.trace by { assert InStage(backend.trace, 1); }
      assert StartServer !in model.trace by { assert InStage(model.trace, 2); }
    }
  }
}
