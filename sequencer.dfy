/** `open_applications` (script.py:6-36): launch each path in order, pausing
    after every successful launch, reporting and skipping missing paths and
    reporting launch errors without stopping the batch. The operating system
    is abstracted: which paths exist and which launch calls raise are given
    as predicates, and the program's effects (printing, spawning, opening,
    sleeping) are recorded as a trace of events. */
module Sequencer {
  import opened Text

  /** The `delay` parameter's default (script.py:6). */
  const DefaultDelay: int := 5

  /** What the sequencer asks of the operating system: `os.path.exists`, and
      whether `os.startfile` / `subprocess.Popen` raises for a path. */
  datatype Env = Env(present: string -> bool, launchFails: string -> bool)

  datatype Event =
    | NotFound(path: string)   // the "not found" report, script.py:18
    | ShellOpen(path: string)  // os.startfile, script.py:26
    | Spawn(path: string)      // subprocess.Popen with the path as the whole command, script.py:29
    | Wait(seconds: int)       // time.sleep, script.py:33
    | Error(path: string)      // the report of a caught exception, script.py:36

  /** The event that opens the processing of one path. */
  predicate Announces(e: Event) {
    e.NotFound? || e.ShellOpen? || e.Spawn?
  }

  /** script.py:24: the lower-cased path ends in ".lnk". */
  predicate IsShortcut(path: string) {
    EndsWith(Lower(path), ".lnk")
  }

  /** A path is launched and its wait completes: it exists, the launch call
      does not raise, and `time.sleep` accepts the delay (Python raises
      ValueError for a negative one). */
  predicate Launches(env: Env, delay: int, path: string) {
    env.present(path) && !env.launchFails(path) && delay >= 0
  }

  /** The events of one iteration of the loop, for one path. */
  function ItemEvents(path: string, delay: int, env: Env): (es: seq<Event>)
    ensures |es| > 0 && Announces(es[0]) && es[0].path == path
    ensures es[0].NotFound? <==> !env.present(path)
    ensures es[0].ShellOpen? <==> env.present(path) && IsShortcut(path)
    ensures es[0].Spawn? <==> env.present(path) && !IsShortcut(path)
    ensures forall k :: 0 < k < |es| ==> !Announces(es[k])
    ensures Wait(delay) in es <==> Launches(env, delay, path)
    ensures (exists k :: 0 <= k < |es| && es[k].Wait?) <==> Launches(env, delay, path)
    ensures Error(path) in es <==> env.present(path) && !Launches(env, delay, path)
    ensures |es| == (if env.present(path) then 2 else 1)
    ensures |es| == 2 ==> es[1] == (if Launches(env, delay, path) then Wait(delay) else Error(path))
  {
    if !env.present(path) then [NotFound(path)]
    else
      var launch := if IsShortcut(path) then ShellOpen(path) else Spawn(path);
      if env.launchFails(path) || delay < 0 then [launch, Error(path)]
      else [launch, Wait(delay)]
  }

  /** The whole trace of `open_applications(apps, delay)`: the events of each
      path, one path after the other. */
  function Trace(apps: seq<string>, delay: int, env: Env): seq<Event> {
    if apps == [] then []
    else Trace(apps[..|apps| - 1], delay, env) + ItemEvents(apps[|apps| - 1], delay, env)
  }

  /** The loop of script.py:14-36. The `continue` for a missing path skips
      the launch and the wait; an exception from the launch call or from the
      sleep skips the rest of the iteration and is reported. */
  method OpenApplications(apps: seq<string>, env: Env, delay: int := DefaultDelay) returns (trace: seq<Event>)
    ensures trace == Trace(apps, delay, env)
  {
    trace := [];
    for i := 0 to |apps|
      invariant trace == Trace(apps[..i], delay, env)
    {
      var path := apps[i];
      assert apps[..i + 1][..i] == apps[..i];
      if !env.present(path) {
        trace := trace + [NotFound(path)];
        continue;
      }
      // the try block of script.py:15-33
      var raised := false;
      if IsShortcut(path) {
        trace := trace + [ShellOpen(path)];
      } else {
        trace := trace + [Spawn(path)];
      }
      raised := env.launchFails(path);
      if !raised {
        if delay < 0 {
          raised := true;
        } else {
          trace := trace + [Wait(delay)];
        }
      }
      if raised {
        trace := trace + [Error(path)];
      }
    }
    assert apps[..|apps|] == apps;
  }

  /** Items do not influence one another: the trace of a concatenation is the
      concatenation of the traces, so no failure stops the later paths. */
  lemma {:induction false} TraceAppend(xs: seq<string>, ys: seq<string>, delay: int, env: Env)
    ensures Trace(xs + ys, delay, env) == Trace(xs, delay, env) + Trace(ys, delay, env)
    decreases |ys|
  {
    if ys == [] {
      assert xs + ys == xs;
    } else {
      var ys' := ys[..|ys| - 1];
      assert (xs + ys)[..|xs + ys| - 1] == xs + ys';
      assert (xs + ys)[|xs + ys| - 1] == ys[|ys| - 1];
      TraceAppend(xs, ys', delay, env);
    }
  }

  /** The paths named by the announcing events, in order. */
  function Subjects(trace: seq<Event>): seq<string> {
    if trace == [] then [] else
      var last := trace[|trace| - 1];
      Subjects(trace[..|trace| - 1]) + (if Announces(last) then [last.path] else [])
  }

  lemma {:induction false} SubjectsAppend(xs: seq<Event>, ys: seq<Event>)
    ensures Subjects(xs + ys) == Subjects(xs) + Subjects(ys)
    decreases |ys|
  {
    if ys == [] {
      assert xs + ys == xs;
    } else {
      var ys' := ys[..|ys| - 1];
      assert (xs + ys)[..|xs + ys| - 1] == xs + ys';
      assert (xs + ys)[|xs + ys| - 1] == ys[|ys| - 1];
      SubjectsAppend(xs, ys');
    }
  }

  lemma {:induction false} ItemSubjects(path: string, delay: int, env: Env)
    ensures Subjects(ItemEvents(path, delay, env)) == [path]
  {
    var es := ItemEvents(path, delay, env);
    if |es| == 2 {
      assert es[..1][..0] == [];
      assert Subjects(es[..1]) == [path];
    } else {
      assert es[..0] == [];
    }
  }

  /** One more path announces one more subject. */
  lemma SubjectsStep(t: seq<Event>, es: seq<Event>, done: seq<string>, path: string)
    requires Subjects(t) == done && Subjects(es) == [path]
    ensures Subjects(t + es) == done + [path]
  {
    SubjectsAppend(t, es);
  }

  /** Every path is processed exactly once, in input order. */
  lemma {:induction false} EachPathOnceInOrder(apps: seq<string>, delay: int, env: Env)
    ensures Subjects(Trace(apps, delay, env)) == apps
  {
    if apps != [] {
      var init, last := apps[..|apps| - 1], apps[|apps| - 1];
      assert init + [last] == apps;
      EachPathOnceInOrder(init, delay, env);
      ItemSubjects(last, delay, env);
      SubjectsStep(Trace(init, delay, env), ItemEvents(last, delay, env), init, last);
    }
  }

  /** The number of waits in a trace. */
  function Waits(trace: seq<Event>): nat {
    if trace == [] then 0
    else Waits(trace[..|trace| - 1]) + (if trace[|trace| - 1].Wait? then 1 else 0)
  }

  /** The paths that are launched and waited for, in order. */
  function Launched(apps: seq<string>, delay: int, env: Env): seq<string> {
    if apps == [] then [] else
      var last := apps[|apps| - 1];
      Launched(apps[..|apps| - 1], delay, env) + (if Launches(env, delay, last) then [last] else [])
  }

  lemma {:induction false} WaitsAppend(xs: seq<Event>, ys: seq<Event>)
    ensures Waits(xs + ys) == Waits(xs) + Waits(ys)
    decreases |ys|
  {
    if ys == [] {
      assert xs + ys == xs;
    } else {
      var ys' := ys[..|ys| - 1];
      assert (xs + ys)[..|xs + ys| - 1] == xs + ys';
      assert (xs + ys)[|xs + ys| - 1] == ys[|ys| - 1];
      WaitsAppend(xs, ys');
    }
  }

  lemma {:induction false} ItemWaits(path: string, delay: int, env: Env)
    ensures Waits(ItemEvents(path, delay, env)) == if Launches(env, delay, path) then 1 else 0
  {
    var es := ItemEvents(path, delay, env);
    if |es| == 2 {
      assert es[..1][..0] == [];
      assert Waits(es[..1]) == 0;
      assert es[1].Wait? <==> Launches(env, delay, path);
    } else {
      assert es[..0] == [];
    }
  }

  /** Exactly one wait per successful launch and none otherwise. */
  lemma {:induction false} WaitsMatchLaunches(apps: seq<string>, delay: int, env: Env)
    ensures Waits(Trace(apps, delay, env)) == |Launched(apps, delay, env)|
  {
    if apps != [] {
      var init := apps[..|apps| - 1];
      WaitsMatchLaunches(init, delay, env);
      WaitsAppend(Trace(init, delay, env), ItemEvents(apps[|apps| - 1], delay, env));
      ItemWaits(apps[|apps| - 1], delay, env);
    }
  }

  /** A wait only ever follows the launch of a path that launches: never a
      "not found" report and never an error. */
  lemma {:induction false} WaitFollowsLaunch(apps: seq<string>, delay: int, env: Env, i: nat)
    requires i < |Trace(apps, delay, env)| && Trace(apps, delay, env)[i].Wait?
    ensures i > 0
    ensures var e := Trace(apps, delay, env)[i - 1];
      (e.ShellOpen? || e.Spawn?) && Launches(env, delay, e.path)
  {
    var init := apps[..|apps| - 1];
    var t := Trace(init, delay, env);
    var es := ItemEvents(apps[|apps| - 1], delay, env);
    assert Trace(apps, delay, env) == t + es;
    if i < |t| {
      WaitFollowsLaunch(init, delay, env, i);
    } else {
      assert es[i - |t|].Wait?;
      assert i - |t| == 1;
    }
  }

  /** A present executable followed by a missing one: the missing path is
      reported and costs no wait, so the batch waits once, not twice. */
  lemma MissingPathIsNotWaitedFor(a: string, b: string, env: Env)
    requires env.present(a) && !env.launchFails(a) && !IsShortcut(a)
    requires !env.present(b)
    ensures Trace([a, b], DefaultDelay, env) == [Spawn(a), Wait(DefaultDelay), NotFound(b)]
  {
    assert [a, b][..1] == [a];
    assert [a][..0] == [];
    assert ItemEvents(a, DefaultDelay, env) == [Spawn(a), Wait(DefaultDelay)];
    assert Trace([a], DefaultDelay, env) == [Spawn(a), Wait(DefaultDelay)];
    assert ItemEvents(b, DefaultDelay, env) == [NotFound(b)];
  }
}
