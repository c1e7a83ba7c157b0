/**
 chrootshell.c: from the environment and the two passwd files to execvp.
 Everything the operating system answers is given from outside, as a World.
 */
module ChrootShell {
  import opened Options

  datatype Entry = Entry(shell: string, dir: string, uid: int)

  datatype World = World(
    logOpens: bool,            // fopen of the log
    user: Option<string>,      // getenv("USER")
    logname: Option<string>,   // getenv("LOGNAME")
    outer: Option<Entry>,      // getpwnam outside the jail
    chdirOuter: bool, chroot: bool, setuid: bool,
    inner: Option<Entry>,      // getpwnam inside the jail
    chdirInner: bool,
    memory: nat -> bool)       // whether the k-th malloc succeeds

  // The calls that matter, with their answers.
  datatype Event =
    | Lookup(user: string, found: Option<Entry>)
    | Chdir(dir: string, ok: bool)
    | Chroot(dir: string, ok: bool)
    | Setuid(uid: int, ok: bool)
    | Exec(path: string, args: seq<Option<string>>, env: seq<string>)
  {
    predicate Succeeded() {
      match this
      case Lookup(_, found) => found.Some?
      case Chdir(_, ok) => ok
      case Chroot(_, ok) => ok
      case Setuid(_, ok) => ok
      case Exec(_, _, _) => true
    }
  }

  // How main comes to its end; Faulted is a null pointer used.
  datatype End = Running | Died | Faulted | Execed

  const MAXENV: nat := 20

  // ---- What the checks accept ----

  // strrchr(s, '/') + 1
  function AfterLastSlash(s: string): Option<string> {
    if s == "" then None
    else if s[|s| - 1] == '/' then Some("")
    else
      var t := AfterLastSlash(s[..|s| - 1]);
      if t.None? then None else Some(t.value + [s[|s| - 1]])
  }

  lemma {:induction false} AfterLastSlashIs(s: string, t: string)
    ensures AfterLastSlash(s) == Some(t) <==> '/' !in t && |t| < |s| && s == s[..|s| - |t| - 1] + "/" + t
    decreases |s|
  {
    if s != "" && s[|s| - 1] != '/' {
      var n := |s| - 1;
      if t != "" {
        var m := |t| - 1;
        AfterLastSlashIs(s[..n], t[..m]);
        assert t == t[..m] + [t[m]];
        EndsAlike(s, t, n, m);
      } else {
        assert (s[..n] + "/" + t)[n] == '/';
      }
    }
  }

  // Taking the last character off both sides.
  lemma EndsAlike(s: string, t: string, n: nat, m: nat)
    requires n == |s| - 1 && m == |t| - 1 && s[n] != '/'
    ensures '/' !in t && m < n && s == s[..n - m - 1] + "/" + t <==>
            '/' !in t[..m] && m < n && s[..n] == s[..n][..n - m - 1] + "/" + t[..m] && s[n] == t[m]
  {
    assert t == t[..m] + [t[m]] && s == s[..n] + [s[n]];
    if m < n {
      var front := s[..n - m - 1];
      assert s[..n][..n - m - 1] == front;
      assert front + "/" + t == (front + "/" + t[..m]) + [t[m]];
      LastOff(s, front + "/" + t[..m], t[m]);
    }
  }

  lemma LastOff(s: string, u: string, c: char)
    requires s != ""
    ensures s == u + [c] <==> s[..|s| - 1] == u && s[|s| - 1] == c
  {
    assert s == s[..|s| - 1] + [s[|s| - 1]];
    assert (u + [c])[..|u|] == u;
  }

  function Undashed(argv0: string): string {
    if argv0 != "" && argv0[0] == '-' then argv0[1..] else argv0
  }

  /** The dash of a login shell is skipped once, and nothing else is. */
  lemma UndashedIs(a: string, t: string)
    ensures Undashed(a) == t <==> a == "-" + t || (a == t && !("-" <= t))
  {
    if a != "" && a[0] == '-' {
      assert a == "-" + a[1..];
      assert ("-" + t)[1..] == t;
    }
  }

  predicate NonEmpty(s: Option<string>) {
    s.Some? && s.value != ""
  }

  // USER is set, LOGNAME agrees with it, and argv[0] is the login shell the
  // outer passwd file names.
  predicate Identified(w: World, argv: seq<string>) {
    && w.user.Some? && (NonEmpty(w.logname) ==> w.logname == w.user)
    && w.outer.Some? && argv != []
    && AfterLastSlash(w.outer.value.shell) == Some(Undashed(argv[0]))
  }

  predicate Jailed(w: World) {
    w.chdirOuter && w.chroot && w.setuid && w.inner.Some? && w.chdirInner
  }

  predicate Understood(argv: seq<string>) {
    |argv| == 1 || (|argv| > 1 && argv[1] == "-c")
  }

  function Variable(name: string, value: string): string {
    name + "=" + value
  }

  function Variables(w: World): (env: seq<string>)
    requires w.user.Some? && w.inner.Some?
    ensures |env| <= 5
  {
    [Variable("SHELL", w.inner.value.shell), Variable("HOME", w.inner.value.dir),
     Variable("PATH", "/bin:/usr/bin"), Variable("USER", w.user.value)]
    + if NonEmpty(w.logname) then [Variable("LOGNAME", w.user.value)] else []
  }

  function Arguments(argv: seq<string>, shell: string): seq<Option<string>>
    requires argv != []
  {
    if |argv| == 1 then [Some("-" + shell), None]
    else [Some(shell), Some("-c"), if |argv| > 2 then Some(argv[2]) else None, None]
  }

  // The allocations: one for each variable, one for the vector, one for a dashed name.
  function Allocations(w: World, argv: seq<string>): nat
    requires w.user.Some? && w.inner.Some?
  {
    |Variables(w)| + if |argv| == 1 then 2 else 1
  }

  predicate MayExec(w: World, argv: seq<string>) {
    && Identified(w, argv) && Jailed(w) && Understood(argv)
    && forall k :: 0 <= k < Allocations(w, argv) ==> w.memory(k)
  }

  /** When the shell of the jail is executed, condition by condition: the name behind
      the last slash of the login shell is argv[0], or argv[0] is that name behind one
      dash. */
  lemma MayExecIs(w: World, argv: seq<string>)
    ensures MayExec(w, argv) <==>
              && w.user.Some? && (w.logname.Some? && w.logname.value != "" ==> w.logname.value == w.user.value)
              && w.outer.Some? && argv != []
              && var name := AfterLastSlash(w.outer.value.shell);
              && name.Some?
              && (argv[0] == "-" + name.value || (argv[0] == name.value && !("-" <= name.value)))
              && w.chdirOuter && w.chroot && w.setuid && w.inner.Some? && w.chdirInner
              && (|argv| == 1 || argv[1] == "-c")
              && var n := if w.logname.Some? && w.logname.value != "" then 5 else 4;
                 forall k :: 0 <= k < n + (if |argv| == 1 then 2 else 1) ==> w.memory(k)
  {
    if w.outer.Some? && argv != [] && AfterLastSlash(w.outer.value.shell).Some? {
      UndashedIs(argv[0], AfterLastSlash(w.outer.value.shell).value);
    }
  }

  // A null pointer is used: the missing log file when the name test fails, a missing
  // argv[0], or a dashed name there was no memory for.
  predicate UsesNull(w: World, argv: seq<string>) {
    && w.user.Some? && (NonEmpty(w.logname) ==> w.logname == w.user)
    && w.outer.Some? && AfterLastSlash(w.outer.value.shell).Some?
    && (argv == []
        || (!w.logOpens && AfterLastSlash(w.outer.value.shell) != Some(Undashed(argv[0])))
        || (|argv| == 1 && AfterLastSlash(w.outer.value.shell) == Some(Undashed(argv[0])) && Jailed(w)
            && (forall k :: 0 <= k <= |Variables(w)| ==> w.memory(k)) && !w.memory(|Variables(w)| + 1)))
  }

  lemma UsesNullIs(w: World, argv: seq<string>)
    ensures UsesNull(w, argv) <==>
              && w.user.Some? && (w.logname.Some? && w.logname.value != "" ==> w.logname.value == w.user.value)
              && w.outer.Some?
              && var name := AfterLastSlash(w.outer.value.shell);
              && name.Some?
              && (argv == []
                  || var fits := argv[0] == "-" + name.value || (argv[0] == name.value && !("-" <= name.value));
                     if !fits then !w.logOpens
                     else
                       && |argv| == 1 && w.chdirOuter && w.chroot && w.setuid && w.inner.Some? && w.chdirInner
                       && var n := if w.logname.Some? && w.logname.value != "" then 5 else 4;
                          (forall k :: 0 <= k <= n ==> w.memory(k)) && !w.memory(n + 1))
  {
    if w.outer.Some? && argv != [] && AfterLastSlash(w.outer.value.shell).Some? {
      UndashedIs(argv[0], AfterLastSlash(w.outer.value.shell).value);
    }
  }

  /** The environment and the arguments, string by string. */
  lemma VariablesAre(w: World)
    requires w.user.Some? && w.inner.Some?
    ensures Variables(w) ==
            ["SHELL=" + w.inner.value.shell, "HOME=" + w.inner.value.dir, "PATH=/bin:/usr/bin", "USER=" + w.user.value]
            + if w.logname.Some? && w.logname.value != "" then ["LOGNAME=" + w.user.value] else []
  {
    assert "SHELL" + "=" == "SHELL=" && "HOME" + "=" == "HOME=" && "USER" + "=" == "USER=";
    assert "LOGNAME" + "=" == "LOGNAME=";
    assert Variable("PATH", "/bin:/usr/bin") == "PATH=/bin:/usr/bin";
  }

  lemma ArgumentsAre(argv: seq<string>, shell: string)
    requires argv != []
    ensures |argv| == 1 ==> Arguments(argv, shell) == [Some("-" + shell), None]
    ensures |argv| == 2 ==> Arguments(argv, shell) == [Some(shell), Some("-c"), None, None]
    ensures |argv| > 2 ==> Arguments(argv, shell) == [Some(shell), Some("-c"), Some(argv[2]), None]
  {
  }

  // ---- The order of the calls ----

  // Every run makes these calls in this order, each on the answer of the one
  // before it, and goes on only when the last one succeeded.
  predicate Disciplined(trace: seq<Event>) {
    && |trace| <= 7
    && (forall i :: 0 <= i < |trace| - 1 ==> trace[i].Succeeded())
    && (|trace| > 0 ==> trace[0].Lookup?)
    && (|trace| > 1 ==> trace[1].Chdir? && trace[1].dir == trace[0].found.value.dir)
    && (|trace| > 2 ==> trace[2].Chroot? && trace[2].dir == trace[0].found.value.dir)
    && (|trace| > 3 ==> trace[3].Setuid? && trace[3].uid == trace[0].found.value.uid)
    && (|trace| > 4 ==> trace[4].Lookup? && trace[4].user == trace[0].user)
    && (|trace| > 5 ==> trace[5].Chdir? && trace[5].dir == trace[4].found.value.dir)
    && (|trace| > 6 ==> trace[6].Exec? && trace[6].path == trace[4].found.value.shell)
  }

  /** Every run makes these calls, in this order, and goes on only behind a success. */
  lemma DisciplinedIs(trace: seq<Event>)
    requires Disciplined(trace)
    ensures |trace| <= 7
    ensures |trace| > 0 ==> trace[0].Lookup?
    ensures |trace| > 1 ==> trace[0].found.Some? && trace[1].Chdir? && trace[1].dir == trace[0].found.value.dir
    ensures |trace| > 2 ==> trace[1].ok && trace[2].Chroot? && trace[2].dir == trace[0].found.value.dir
    ensures |trace| > 3 ==> trace[2].ok && trace[3].Setuid? && trace[3].uid == trace[0].found.value.uid
    ensures |trace| > 4 ==> trace[3].ok && trace[4].Lookup? && trace[4].user == trace[0].user
    ensures |trace| > 5 ==> trace[4].found.Some? && trace[5].Chdir? && trace[5].dir == trace[4].found.value.dir
    ensures |trace| > 6 ==> trace[5].ok && trace[6].Exec? && trace[6].path == trace[4].found.value.shell
  {
    assert forall i :: 0 <= i < |trace| - 1 ==> trace[i].Succeeded();
  }

  // ---- The program ----

  class Shell {
    var trace: seq<Event>
    const myenv: array<array?<char>>
    var used: nat

    constructor ()
      ensures trace == [] && used == 0 && Holds([]) && fresh(myenv)
    {
      trace, used := [], 0;
      myenv := new array?<char>[MAXENV + 1](_ => null);
    }

    // The table holds these variables, each in an allocation that it and its
    // terminator fill exactly.
    ghost predicate Holds(env: seq<string>)
      reads this, myenv, set i | 0 <= i < myenv.Length :: myenv[i]
    {
      && myenv.Length == MAXENV + 1
      && used == |env| <= MAXENV
      && forall i :: 0 <= i < used ==> myenv[i] != null && myenv[i][..] == env[i] + ['\0']
    }

    // mysetenv
    method SetEnv(name: string, value: string, malloc: bool, ghost env: seq<string>) returns (died: bool)
      requires Holds(env)
      modifies this`used, myenv
      ensures died <==> |env| == 20 || !malloc
      ensures died ==> Holds(env)
      ensures !died ==> Holds(env + [name + "=" + value])
    {
      if used >= MAXENV {
        return true;
      }
      var len := |name| + |value| + 2;
      if !malloc {
        myenv[used] := null;
        return true;
      }
      var s := name + "=" + value + ['\0'];
      var p := new char[len](i requires 0 <= i < len => s[i]);
      assert p[..] == s;
      myenv[used] := p;
      used := used + 1;
      return false;
    }

    // The checks before the jail.
    method Identify(w: World, argv: seq<string>) returns (end: End)
      requires trace == []
      modifies this`trace
      ensures end.Running? <==> Identified(w, argv)
      ensures end.Running? || end.Died? || end.Faulted?
      ensures end.Faulted? <==>
                && w.user.Some? && (NonEmpty(w.logname) ==> w.logname == w.user)
                && w.outer.Some? && AfterLastSlash(w.outer.value.shell).Some?
                && (argv == [] || (AfterLastSlash(w.outer.value.shell) != Some(Undashed(argv[0])) && !w.logOpens))
      ensures trace == if w.user.Some? && (NonEmpty(w.logname) ==> w.logname == w.user)
                       then [Lookup(w.user.value, w.outer)] else []
    {
      if w.user.None? {
        return Died;
      }
      if NonEmpty(w.logname) && w.user.value != w.logname.value {
        return Died;
      }
      trace := trace + [Lookup(w.user.value, w.outer)];
      if w.outer.None? {
        return Died;
      }
      var shell := AfterLastSlash(w.outer.value.shell);
      if shell.None? {
        return Died;
      }
      if argv == [] {
        return Faulted;
      }
      if shell.value != Undashed(argv[0]) {
        return if w.logOpens then Died else Faulted;
      }
      return Running;
    }

    // chdir, chroot, setuid, then the jail's own passwd file.
    method EnterJail(w: World, user: string, outer: Entry) returns (end: End)
      requires trace == [Lookup(user, Some(outer))]
      modifies this`trace
      ensures end.Running? <==> Jailed(w)
      ensures end.Running? <==> w.chdirOuter && w.chroot && w.setuid && w.inner.Some? && w.chdirInner
      ensures end.Running? || end.Died?
      ensures Disciplined(trace) && 1 < |trace| <= 6
      ensures end.Running? ==> trace == JailTrace(user, outer, w.inner.value)
    {
      trace := trace + [Chdir(outer.dir, w.chdirOuter)];
      if !w.chdirOuter {
        return Died;
      }
      trace := trace + [Chroot(outer.dir, w.chroot)];
      if !w.chroot {
        return Died;
      }
      trace := trace + [Setuid(outer.uid, w.setuid)];
      if !w.setuid {
        return Died;
      }
      trace := trace + [Lookup(user, w.inner)];
      if w.inner.None? {
        return Died;
      }
      trace := trace + [Chdir(w.inner.value.dir, w.chdirInner)];
      return if w.chdirInner then Running else Died;
    }

    // The minimal environment.
    method FixEnvironment(w: World) returns (end: End)
      requires w.user.Some? && w.inner.Some? && Holds([])
      modifies this`used, myenv
      ensures end.Running? <==> forall k :: 0 <= k < |Variables(w)| ==> w.memory(k)
      ensures end.Running? || end.Died?
      ensures end.Running? ==> Holds(Variables(w)) && myenv[used] == null
    {
      ghost var env := Variables(w);
      var died := SetFour(w);
      if died {
        return Died;
      }
      if NonEmpty(w.logname) {
        died := SetEnv("LOGNAME", w.user.value, w.memory(4), env[..4]);
        if died {
          return Died;
        }
        assert env[..4] + [Variable("LOGNAME", w.user.value)] == env;
      } else {
        assert env[..4] == env;
      }
      myenv[used] := null;
      return Running;
    }

    // The variables every environment has.
    method SetFour(w: World) returns (died: bool)
      requires w.user.Some? && w.inner.Some? && Holds([])
      modifies this`used, myenv
      ensures died <==> exists k :: 0 <= k < 4 && !w.memory(k)
      ensures !died ==> Holds(Variables(w)[..4])
    {
      var pw := w.inner.value;
      ghost var env := Variables(w);
      died := SetEnv("SHELL", pw.shell, w.memory(0), []);
      if died {
        return;
      }
      assert [] + [Variable("SHELL", pw.shell)] == env[..1];
      died := SetEnv("HOME", pw.dir, w.memory(1), env[..1]);
      if died {
        return;
      }
      assert env[..1] + [Variable("HOME", pw.dir)] == env[..2];
      died := SetEnv("PATH", "/bin:/usr/bin", w.memory(2), env[..2]);
      if died {
        return;
      }
      assert env[..2] + [Variable("PATH", "/bin:/usr/bin")] == env[..3];
      died := SetEnv("USER", w.user.value, w.memory(3), env[..3]);
      assert env[..3] + [Variable("USER", w.user.value)] == env[..4];
    }

    // The argument vector: argc + 3 places, filled with j++.
    method BuildArguments(argv: seq<string>, shell: string, vector: bool, dashed: bool)
      returns (end: End, args: seq<Option<string>>)
      requires argv != []
      ensures end.Running? <==> vector && if |argv| == 1 then dashed else argv[1] == "-c"
      ensures end.Running? ==> args == Arguments(argv, shell)
      ensures end.Running? || end.Died? || end.Faulted?
      ensures end.Faulted? <==> vector && |argv| == 1 && !dashed
    {
      args := [];
      if !vector {
        return Died, args;
      }
      var newargv := new Option<string>[|argv| + 3](_ => None);
      var j := 0;
      if |argv| == 1 {
        if !dashed {
          return Faulted, args;
        }
        newargv[j] := Some("-" + shell);
        j := j + 1;
      } else if |argv| > 1 && argv[1] == "-c" {
        newargv[j] := Some(shell);
        j := j + 1;
        newargv[j] := Some("-c");
        j := j + 1;
        newargv[j] := if |argv| > 2 then Some(argv[2]) else None;
        j := j + 1;
      } else {
        return Died, args;
      }
      newargv[j] := None;
      j := j + 1;
      return Running, newargv[..j];
    }

    /** main: exec is reached exactly when every check, call and allocation goes
        well, and then with the minimal environment and the right arguments; in
        every run the calls keep their order and stop at the first failure. */
    method RunMain(w: World, argv: seq<string>) returns (end: End)
      requires trace == [] && Holds([])
      modifies this`trace, this`used, myenv
      ensures end.Execed? <==>
                && w.user.Some? && (w.logname.Some? && w.logname.value != "" ==> w.logname.value == w.user.value)
                && w.outer.Some? && argv != []
                && var name := AfterLastSlash(w.outer.value.shell);
                && name.Some?
                && (argv[0] == "-" + name.value || (argv[0] == name.value && !("-" <= name.value)))
                && w.chdirOuter && w.chroot && w.setuid && w.inner.Some? && w.chdirInner
                && (|argv| == 1 || argv[1] == "-c")
                && var n := if w.logname.Some? && w.logname.value != "" then 5 else 4;
                   forall k :: 0 <= k < n + (if |argv| == 1 then 2 else 1) ==> w.memory(k)
      ensures !end.Running?
      ensures end.Faulted? <==> UsesNull(w, argv)
      ensures Disciplined(trace)
      ensures end.Execed? ==>
        var env := Variables(w);
        && used == |env| < myenv.Length && myenv[used] == null
        && (forall i :: 0 <= i < used ==> myenv[i] != null && myenv[i][..] == env[i] + ['\0'])
        && trace == [Lookup(w.user.value, w.outer), Chdir(w.outer.value.dir, true), Chroot(w.outer.value.dir, true),
                     Setuid(w.outer.value.uid, true), Lookup(w.user.value, w.inner), Chdir(w.inner.value.dir, true),
                     Exec(w.inner.value.shell, Arguments(argv, w.inner.value.shell), env)]
      ensures !end.Execed? ==> forall e <- trace :: !e.Exec?
    {
      MayExecIs(w, argv);
      var args;
      end, args := Prepare(w, argv);
      NoExecYet(trace);
      if end.Running? {
        ExecIsDisciplined(w.user.value, w.outer.value, w.inner.value, args, Variables(w));
        trace := trace + [Exec(w.inner.value.shell, args, Variables(w))];
        end := Execed;
      }
    }

    // Everything before the exec.
    method Prepare(w: World, argv: seq<string>) returns (end: End, args: seq<Option<string>>)
      requires trace == [] && Holds([])
      modifies this`trace, this`used, myenv
      ensures end.Running? <==> MayExec(w, argv)
      ensures end.Faulted? <==> UsesNull(w, argv)
      ensures !end.Execed? && Disciplined(trace) && |trace| <= 6
      ensures end.Running? ==>
        && Holds(Variables(w)) && myenv[used] == null
        && trace == JailTrace(w.user.value, w.outer.value, w.inner.value)
        && args == Arguments(argv, w.inner.value.shell)
    {
      args := [];
      end := Identify(w, argv);
      if !end.Running? {
        return;
      }
      end := EnterJail(w, w.user.value, w.outer.value);
      if !end.Running? {
        return;
      }
      end := FixEnvironment(w);
      if !end.Running? {
        return;
      }
      var n := |Variables(w)|;
      end, args := BuildArguments(argv, w.inner.value.shell, w.memory(n), w.memory(n + 1));
    }
  }

  lemma NoExecYet(trace: seq<Event>)
    requires Disciplined(trace) && |trace| <= 6
    ensures forall e <- trace :: !e.Exec?
  {
  }

  function JailTrace(user: string, outer: Entry, inner: Entry): seq<Event> {
    [Lookup(user, Some(outer)), Chdir(outer.dir, true), Chroot(outer.dir, true),
     Setuid(outer.uid, true), Lookup(user, Some(inner)), Chdir(inner.dir, true)]
  }

  lemma ExecIsDisciplined(user: string, outer: Entry, inner: Entry, args: seq<Option<string>>, env: seq<string>)
    ensures var jail := JailTrace(user, outer, inner);
            Disciplined(jail) && Disciplined(jail + [Exec(inner.shell, args, env)])
  {
  }
}
