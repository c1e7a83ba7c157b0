/**
 make_jail_etc.c from getopt's answers to the file it writes.  The answers of
 getopt, sscanf, crypt and fopen are given from outside.
 */
module RunArguments {
  import opened Options
  import opened AccountLines

  datatype Kind = Passwd | Shadow | Group

  // One answer of getopt, with optarg; for -i, what sscanf reads from it.
  datatype Opt =
    | OptHelp
    | OptKind(kind: Kind)      // -P, -S, -G
    | OptPassword(arg: string) // -p
    | OptOutput(arg: string)   // -o
    | OptShell(arg: string)    // -s
    | OptUser(arg: string)     // -u
    | OptHome(arg: string)     // -h
    | OptId(scan: Option<int>) // -i
    | OptUnknown               // '?'

  datatype Parsed = Finished | Failed | Exited

  // use_crypt_run_arguments_t; a zeroed kind or pointer is None.
  datatype Settings = Settings(
    kind: Option<Kind>, output: Option<string>, user: Option<string>, home: Option<string>,
    shell: Option<string>, password: Option<string>, id: int)

  const ZEROED := Settings(None, None, None, None, None, None, 0)

  // The options that end parsing on the spot.
  predicate Stops(o: Opt) {
    o.OptHelp? || o.OptUnknown? || (o.OptId? && o.scan.None?)
  }

  // ---- What each option leaves behind, read from the end of the stream ----

  // The last thing `pick` finds in the stream.
  function Last<T>(opts: seq<Opt>, pick: Opt -> Option<T>): Option<T> {
    if opts == [] then None
    else
      var last := pick(opts[|opts| - 1]);
      if last.Some? then last else Last(opts[..|opts| - 1], pick)
  }

  function PickKind(o: Opt): Option<Kind> {
    if o.OptKind? then Some(o.kind) else None
  }

  function PickPassword(o: Opt): Option<string> {
    if o.OptPassword? then Some(o.arg) else None
  }

  function PickOutput(o: Opt): Option<string> {
    if o.OptOutput? then Some(o.arg) else None
  }

  function PickShell(o: Opt): Option<string> {
    if o.OptShell? then Some(o.arg) else None
  }

  function PickUser(o: Opt): Option<string> {
    if o.OptUser? then Some(o.arg) else None
  }

  function PickHome(o: Opt): Option<string> {
    if o.OptHome? then Some(o.arg) else None
  }

  function PickId(o: Opt): Option<int> {
    if o.OptId? then o.scan else None
  }

  /** The last use: an option that gives `x` with none behind it that gives anything. */
  lemma {:induction false} LastIs<T>(opts: seq<Opt>, pick: Opt -> Option<T>, x: T)
    ensures Last(opts, pick) == Some(x) <==>
              exists i :: 0 <= i < |opts| && pick(opts[i]) == Some(x) && forall j :: i < j < |opts| ==> pick(opts[j]) == None
    ensures Last(opts, pick) == None <==> forall i :: 0 <= i < |opts| ==> pick(opts[i]) == None
    decreases |opts|
  {
    if opts != [] {
      var n := |opts| - 1;
      var less := opts[..n];
      LastIs(less, pick, x);
      if pick(opts[n]) == None {
        if i :| 0 <= i < n && pick(less[i]) == Some(x) && forall j :: i < j < n ==> pick(less[j]) == None {
          assert pick(opts[i]) == Some(x) && forall j :: i < j < |opts| ==> pick(opts[j]) == None;
        }
        if i :| 0 <= i < |opts| && pick(opts[i]) == Some(x) && forall j :: i < j < |opts| ==> pick(opts[j]) == None {
          assert pick(less[i]) == Some(x) && forall j :: i < j < n ==> pick(less[j]) == None;
        }
        assert (forall i :: 0 <= i < n ==> pick(less[i]) == None) <==> forall i :: 0 <= i < |opts| ==> pick(opts[i]) == None;
      }
    }
  }

  /** Which option gives which setting. */
  lemma PicksAre(o: Opt, kind: Kind, arg: string, id: int)
    ensures PickKind(o) == Some(kind) <==> o == OptKind(kind)
    ensures PickPassword(o) == Some(arg) <==> o == OptPassword(arg)
    ensures PickOutput(o) == Some(arg) <==> o == OptOutput(arg)
    ensures PickShell(o) == Some(arg) <==> o == OptShell(arg)
    ensures PickUser(o) == Some(arg) <==> o == OptUser(arg)
    ensures PickHome(o) == Some(arg) <==> o == OptHome(arg)
    ensures PickId(o) == Some(id) <==> o == OptId(Some(id))
  {
  }

  // The settings in which every option's last use wins.
  function LastOnes(opts: seq<Opt>): Settings {
    Settings(Last(opts, PickKind), Last(opts, PickOutput), Last(opts, PickUser), Last(opts, PickHome),
             Last(opts, PickShell), Last(opts, PickPassword),
             if Last(opts, PickId).Some? then Last(opts, PickId).value else 0)
  }

  // The options handled before parsing stops.
  function Heeded(opts: seq<Opt>): (r: seq<Opt>)
    ensures r <= opts && forall o <- r :: o != OptHelp && o != OptUnknown && o != OptId(None)
    ensures r < opts ==> opts[|r|] in {OptHelp, OptUnknown, OptId(None)}
  {
    if opts == [] || Stops(opts[0]) then [] else [opts[0]] + Heeded(opts[1..])
  }

  function ParseEnd(opts: seq<Opt>): Parsed {
    var n := |Heeded(opts)|;
    if n == |opts| then Finished else if opts[n].OptHelp? then Exited else Failed
  }

  // ---- validate_input_args ----

  predicate Valid(s: Settings) {
    match s.kind
    case None => false
    case Some(Shadow) => s.user.Some? && s.password.Some?
    case Some(Passwd) => s.user.Some? && s.shell.Some?
    case Some(Group) => s.user.Some?
  }

  /** Where the settings come from, field by field. */
  lemma LastOnesAre(opts: seq<Opt>)
    ensures var s := LastOnes(opts);
            && s.kind == Last(opts, PickKind) && s.user == Last(opts, PickUser) && s.home == Last(opts, PickHome)
            && s.shell == Last(opts, PickShell) && s.password == Last(opts, PickPassword)
            && s.output == Last(opts, PickOutput)
            && s.id == if Last(opts, PickId).Some? then Last(opts, PickId).value else 0
  {
  }

  // ---- What is printed, and where ----

  // The generators' text; `hash` is crypt's answer.  None where a null pointer is
  // printed: a passwd line needs a home, which validation does not ask for.
  function Text(kind: Kind, s: Settings, hash: Option<string>): Option<string>
    requires Valid(s) && s.kind == Some(kind)
  {
    match kind
    case Passwd => if s.home.None? then None else Some(PasswdText(s.user.value, s.id, s.home.value, s.shell.value))
    case Shadow => if hash.None? then None else Some(ShadowText(s.user.value, hash.value))
    case Group => Some(GroupText(s.user.value, s.id))
  }

  // What get_output_file_stream hands out.
  datatype Stream = Null | Stdout | Opened

  // The answers of fopen, which the passwd and shadow generators ask twice.
  datatype Opens = Opens(first: bool, second: bool)

  // The stream that is printed to is there.
  predicate Reaches(kind: Kind, output: Option<string>, o: Opens) {
    output.None? || (o.first && (kind.Group? || o.second))
  }

  // The generator sees that there is no stream, and main does not look at its answer.
  predicate Skips(kind: Kind, output: Option<string>, o: Opens) {
    output.Some? && !o.first && !kind.Group?
  }

  // ---- The program ----

  // What main comes to: an early exit, a diagnosed failure, or a generator call
  // on the settings it was given.
  datatype Result = EarlyExit | Died | Generated(kind: Kind, settings: Settings)

  class Run {
    var args: Settings
    var out: string          // what was printed on stdout
    var file: Option<string> // what the file named by -o holds, if there is one

    // The global is zeroed before main.
    constructor (there: Option<string>)
      ensures args == ZEROED && out == "" && file == there
    {
      args, out, file := ZEROED, "", there;
    }

    /** parse_input_args: the last use of every option wins among those before
        the first one that stops parsing. */
    method ParseInputArgs(opts: seq<Opt>) returns (r: Parsed)
      requires args == ZEROED
      modifies this`args
      ensures args == LastOnes(Heeded(opts))
      ensures r == ParseEnd(opts)
      ensures r == if Heeded(opts) == opts then Finished
                   else if opts[|Heeded(opts)|] == OptHelp then Exited
                   else Failed
    {
      var i := 0;
      while i < |opts|
        invariant 0 <= i <= |opts|
        invariant forall o <- opts[..i] :: !Stops(o)
        invariant args == LastOnes(opts[..i])
      {
        var c := opts[i];
        LastPush(opts[..i], c);
        assert opts[..i + 1] == opts[..i] + [c];
        if Stops(c) {
          HeededUpTo(opts, i);
        }
        match c {
          case OptHelp => return Exited;
          case OptKind(kind) => args := args.(kind := Some(kind));
          case OptPassword(arg) => args := args.(password := Some(arg));
          case OptOutput(arg) => args := args.(output := Some(arg));
          case OptShell(arg) => args := args.(shell := Some(arg));
          case OptUser(arg) => args := args.(user := Some(arg));
          case OptHome(arg) => args := args.(home := Some(arg));
          case OptId(scan) =>
            if scan.None? {
              return Failed;
            }
            args := args.(id := scan.value);
          case OptUnknown => return Failed;
        }
        i := i + 1;
      }
      HeededUpTo(opts, |opts|);
      return Finished;
    }

    /** validate_input_args: a kind, a user, for a passwd line a shell and for a shadow
        line a password. */
    method ValidateInputArgs() returns (retVal: int)
      ensures retVal == 0 <==> Valid(args)
      ensures retVal == 0 <==>
                && args.kind.Some? && args.user.Some?
                && (args.kind == Some(Passwd) ==> args.shell.Some?)
                && (args.kind == Some(Shadow) ==> args.password.Some?)
    {
      retVal := 0;
      match args.kind
      case Some(Shadow) =>
        if args.user.None? {
          retVal := 1;
        } else if args.password.None? {
          retVal := 1;
        }
      case Some(Passwd) =>
        if args.user.None? {
          retVal := 1;
        } else if args.shell.None? {
          retVal := 1;
        }
      case Some(Group) =>
        if args.user.None? {
          retVal := 1;
        }
      case None =>
        retVal := 1;
    }

    // get_output_file_stream: fopen with "w+" empties the file.
    method GetOutputFileStream(name: Option<string>, opens: bool) returns (stream: Stream)
      modifies this`file
      ensures stream == if name.None? then Stdout else if opens then Opened else Null
      ensures file == if name.Some? && opens then Some("") else old(file)
    {
      if name.None? {
        return Stdout;
      }
      if !opens {
        return Null;
      }
      file := Some("");
      return Opened;
    }

    // fprintf, once, on a stream just handed out.
    method Print(stream: Stream, text: Option<string>) returns (faulted: bool)
      modifies this`out, this`file
      ensures faulted <==> stream.Null? || text.None?
      ensures out == old(out) + if !faulted && stream.Stdout? then text.value else ""
      ensures file == if !faulted && stream.Opened? then text else old(file)
    {
      if stream.Null? || text.None? {
        return true;
      }
      if stream.Stdout? {
        out := out + text.value;
      } else {
        file := text;
      }
      return false;
    }

    // generate_etc_passwd
    method GenerateEtcPasswd(o: Opens) returns (retVal: int, faulted: bool)
      requires Valid(args) && args.kind == Some(Passwd)
      modifies this`out, this`file
      ensures Generates(Passwd, Text(Passwd, args, None), o, faulted, old(out), old(file))
      ensures retVal == -1 <==> args.output.Some? && !o.first
      ensures args.output.None? ==> file == old(file) && (faulted <==> args.home.None?)
      ensures args.output.Some? ==>
                && out == old(out) && (!o.first ==> file == old(file))
                && (faulted <==> o.first && !(o.second && args.home.Some?)) && (faulted ==> file == Some(""))
      ensures args.home.Some? && !faulted && retVal != -1 ==>
                var line := PasswdText(args.user.value, args.id, args.home.value, args.shell.value);
                if args.output.None? then out == old(out) + line else file == Some(line)
    {
      retVal, faulted := 0, false;
      var fstream := GetOutputFileStream(args.output, o.first);
      if !fstream.Null? {
        fstream := GetOutputFileStream(args.output, o.second);
        faulted := Print(fstream, if args.home.None? then None
                                  else Some(PasswdText(args.user.value, args.id, args.home.value, args.shell.value)));
      } else {
        retVal := -1;
      }
    }

    // generate_etc_shadow; the salt is Salt.MakeSalt.
    method GenerateEtcShadow(hash: Option<string>, o: Opens) returns (retVal: int, faulted: bool)
      requires Valid(args) && args.kind == Some(Shadow)
      modifies this`out, this`file
      ensures Generates(Shadow, Text(Shadow, args, hash), o, faulted, old(out), old(file))
      ensures retVal == -1 <==> args.output.Some? && !o.first
      ensures args.output.None? ==> file == old(file) && (faulted <==> hash.None?)
      ensures args.output.Some? ==>
                && out == old(out) && (!o.first ==> file == old(file))
                && (faulted <==> o.first && !(o.second && hash.Some?)) && (faulted ==> file == Some(""))
      ensures hash.Some? && !faulted && retVal != -1 ==>
                var line := ShadowText(args.user.value, hash.value);
                if args.output.None? then out == old(out) + line else file == Some(line)
    {
      retVal, faulted := 0, false;
      var fstream := GetOutputFileStream(args.output, o.first);
      if !fstream.Null? {
        fstream := GetOutputFileStream(args.output, o.second);
        faulted := Print(fstream, if hash.None? then None else Some(ShadowText(args.user.value, hash.value)));
      } else {
        retVal := -1;
      }
    }

    // generate_etc_group
    method GenerateEtcGroup(o: Opens) returns (retVal: int, faulted: bool)
      requires Valid(args) && args.kind == Some(Group)
      modifies this`out, this`file
      ensures Generates(Group, Text(Group, args, None), o, faulted, old(out), old(file))
      ensures retVal == 0
      ensures faulted <==> args.output.Some? && !o.first
      ensures var line := GroupText(args.user.value, args.id);
              if args.output.None? then out == old(out) + line && file == old(file)
              else out == old(out) && file == if o.first then Some(line) else old(file)
    {
      var fstream := GetOutputFileStream(args.output, o.first);
      faulted := Print(fstream, Some(GroupText(args.user.value, args.id)));
      retVal := 0;
    }

    // What a generator with `text` to print leaves, against what was there before:
    // it uses a null pointer unless the line can be printed or the missing stream
    // is noticed; an opened file is emptied even when no line reaches it.
    predicate Generates(kind: Kind, text: Option<string>, o: Opens, faulted: bool, out0: string, file0: Option<string>)
      reads this
    {
      && (faulted <==> !Skips(kind, args.output, o) && !(Reaches(kind, args.output, o) && text.Some?))
      && out == out0 + (if args.output.None? && text.Some? then text.value else "")
      && file == if args.output.None? || !o.first then file0
                 else if Reaches(kind, args.output, o) && text.Some? then text
                 else Some("")
    }

    /** main: a generator is called exactly when no option stops parsing and the
        last uses of the options are valid together, and then it is the one the
        last of -P, -S and -G asks for.  When it ends without using a null pointer
        its line is in place, or the file could not be opened in the first place,
        which main does not report.  Where a stream was opened, what is there
        afterwards reads as the last values given exactly when the line was printed
        and those values are clean. */
    method RunMain(opts: seq<Opt>, hash: Option<string>, o: Opens) returns (r: Result, faulted: bool)
      requires args == ZEROED
      modifies this
      ensures r.Generated? <==>
                && (forall o <- opts :: o != OptHelp && o != OptUnknown && o != OptId(None))
                && Last(opts, PickKind).Some? && Last(opts, PickUser).Some?
                && (Last(opts, PickKind) == Some(Passwd) ==> Last(opts, PickShell).Some?)
                && (Last(opts, PickKind) == Some(Shadow) ==> Last(opts, PickPassword).Some?)
      ensures r.Generated? ==> Valid(LastOnes(opts)) && Some(r.kind) == Last(opts, PickKind) && r.settings == LastOnes(opts) == args
      ensures r.Generated? ==> Generates(r.kind, Text(r.kind, r.settings, hash), o, faulted, old(out), old(file))
      ensures r.Generated? ==>
                (Text(r.kind, r.settings, hash).Some? <==>
                   && (r.kind.Passwd? ==> Last(opts, PickHome).Some?) && (r.kind.Shadow? ==> hash.Some?))
      ensures r.Generated? ==>
                var name := Last(opts, PickOutput);
                if name.Some? && !o.first then file == old(file) && out == old(out)
                else
                  && (name.None? ==> |old(out)| <= |out|)
                  && (name.Some? ==> file.Some?)
                  && (IsLine(r.kind, r.settings, hash, if name.None? then out[|old(out)|..] else file.value) <==>
                        (name.None? || r.kind.Group? || o.second) && AllClean(r.kind, opts, hash))
      ensures r.Generated? ==>
                var name := Last(opts, PickOutput);
                var nothing := (r.kind == Passwd && Last(opts, PickHome) == None) || (r.kind == Shadow && hash == None);
                (faulted <==> if name.None? then nothing
                              else if r.kind == Group then !o.first
                              else o.first && (!o.second || nothing))
      ensures !r.Generated? ==> !faulted && out == old(out) && file == old(file)
      ensures r.EarlyExit? <==>
                exists i :: 0 <= i < |opts| && opts[i] == OptHelp
                            && forall o <- opts[..i] :: o != OptHelp && o != OptUnknown && o != OptId(None)
    {
      StopsAre();
      faulted := false;
      var parsed := ParseInputArgs(opts);
      HeededAll(opts);
      if parsed.Exited? {
        return EarlyExit, faulted;
      }
      if parsed.Failed? {
        return Died, faulted;
      }
      var retVal := ValidateInputArgs();
      if retVal != 0 {
        return Died, faulted;
      }
      match args.kind
      case Some(kind) =>
        retVal, faulted := Generate(kind, opts, hash, o);
        r := Generated(kind, args);
      case None => r := Died;
    }

    // The switch of main.
    method Generate(kind: Kind, ghost opts: seq<Opt>, hash: Option<string>, o: Opens)
      returns (retVal: int, faulted: bool)
      requires Valid(args) && args.kind == Some(kind) && args == LastOnes(opts)
      modifies this`out, this`file
      ensures Generates(kind, Text(kind, args, hash), o, faulted, old(out), old(file))
      ensures !(args.output.Some? && !o.first) ==>
                && (args.output.None? ==> |old(out)| <= |out|)
                && (args.output.Some? ==> file.Some?)
                && (IsLine(kind, args, hash, if args.output.None? then out[|old(out)|..] else file.value) <==>
                      Reaches(kind, args.output, o) && AllClean(kind, opts, hash))
    {
      ghost var before := out;
      match kind {
        case Shadow => retVal, faulted := GenerateEtcShadow(hash, o);
        case Passwd => retVal, faulted := GenerateEtcPasswd(o);
        case Group => retVal, faulted := GenerateEtcGroup(o);
      }
      EmptyIsNoLine(kind, args, hash);
      RunReadsBack(kind, opts, hash);
      if args.output.None? {
        assert out[|before|..] == if Text(kind, args, hash).Some? then Text(kind, args, hash).value else "";
      }
    }
  }

  /** What ends parsing on the spot. */
  lemma StopsAre()
    ensures forall o: Opt :: Stops(o) <==> o == OptHelp || o == OptUnknown || o == OptId(None)
  {
  }

  lemma {:induction false} HeededUpTo(opts: seq<Opt>, i: nat)
    requires i <= |opts| && (forall o <- opts[..i] :: !Stops(o)) && (i < |opts| ==> Stops(opts[i]))
    ensures Heeded(opts) == opts[..i]
  {
    if i > 0 {
      assert opts[0] in opts[..i];
      assert opts[1..][..i - 1] == opts[..i][1..];
      HeededUpTo(opts[1..], i - 1);
    }
  }

  lemma HeededAll(opts: seq<Opt>)
    ensures Heeded(opts) == opts <==> forall o <- opts :: !Stops(o)
    ensures ParseEnd(opts).Exited?
       <==> exists i :: 0 <= i < |opts| && opts[i].OptHelp? && forall o <- opts[..i] :: !Stops(o)
  {
    var n := |Heeded(opts)|;
    assert Heeded(opts) == opts[..n];
    if n < |opts| {
      assert opts[n] in opts;
    } else {
      assert opts[..n] == opts;
    }
    forall i | 0 <= i < |opts| && opts[i].OptHelp? && forall o <- opts[..i] :: !Stops(o)
      ensures i == n
    {
      HeededUpTo(opts, i);
    }
  }

  // ---- Reading the line back ----

  /** Over every stream that gets as far as a generator: there is a line to print
      exactly when it is not a passwd line without a home directory, or a shadow
      line without crypt's answer. */
  lemma LineIsThere(kind: Kind, opts: seq<Opt>, hash: Option<string>)
    requires Valid(LastOnes(opts)) && Last(opts, PickKind) == Some(kind)
    ensures Text(kind, LastOnes(opts), hash).Some? <==>
              (kind.Passwd? ==> Last(opts, PickHome).Some?) && (kind.Shadow? ==> hash.Some?)
  {
  }

  function ExpectedFields(kind: Kind, s: Settings, hash: Option<string>): seq<string>
    requires Valid(s) && s.kind == Some(kind) && Text(kind, s, hash).Some?
  {
    match kind
    case Passwd => [s.user.value, "x", Decimal(s.id), Decimal(s.id), "", s.home.value + "/", s.shell.value]
    case Shadow => [s.user.value, hash.value, "", "", "", "", "", "", ""]
    case Group => [s.user.value, "x", Decimal(s.id), ""]
  }

  // `text` is one line that reads as the fields of its kind.
  predicate IsLine(kind: Kind, s: Settings, hash: Option<string>, text: string)
    requires Valid(s) && s.kind == Some(kind)
  {
    Text(kind, s, hash).Some? && ReadsAs(text, ExpectedFields(kind, s, hash))
  }

  /** Which fields each line holds, in order. */
  lemma IsLineIs(s: Settings, hash: Option<string>, text: string)
    requires Valid(s)
    ensures s.kind == Some(Passwd) ==>
              (IsLine(Passwd, s, hash, text) <==>
                 s.home.Some? && ReadsAs(text, [s.user.value, "x", Decimal(s.id), Decimal(s.id), "",
                                                s.home.value + "/", s.shell.value]))
    ensures s.kind == Some(Shadow) ==>
              (IsLine(Shadow, s, hash, text) <==>
                 hash.Some? && ReadsAs(text, [s.user.value, hash.value, "", "", "", "", "", "", ""]))
    ensures s.kind == Some(Group) ==>
              (IsLine(Group, s, hash, text) <==> ReadsAs(text, [s.user.value, "x", Decimal(s.id), ""]))
  {
  }

  lemma EmptyIsNoLine(kind: Kind, s: Settings, hash: Option<string>)
    requires Valid(s) && s.kind == Some(kind)
    ensures !IsLine(kind, s, hash, "")
  {
  }

  // The last values given are all there and hold no separator.
  predicate AllClean(kind: Kind, opts: seq<Opt>, hash: Option<string>)
    requires Valid(LastOnes(opts)) && Last(opts, PickKind) == Some(kind)
  {
    && Clean(Last(opts, PickUser).value)
    && (kind.Passwd? ==>
          && Last(opts, PickHome).Some? && Clean(Last(opts, PickHome).value)
          && Clean(Last(opts, PickShell).value))
    && (kind.Shadow? ==> hash.Some? && Clean(hash.value))
  }

  /** From command line to text and back, over every stream that gets as far as a
      generator: there is a line to print, and it reads back as the last values
      given, exactly when those values are there and clean. */
  lemma RunReadsBack(kind: Kind, opts: seq<Opt>, hash: Option<string>)
    requires Valid(LastOnes(opts)) && Last(opts, PickKind) == Some(kind)
    ensures var text := Text(kind, LastOnes(opts), hash);
            && ((text.Some? && IsLine(kind, LastOnes(opts), hash, text.value)) <==> AllClean(kind, opts, hash))
            && (AllClean(kind, opts, hash) <==>
                  && Clean(Last(opts, PickUser).value)
                  && (kind == Passwd ==>
                        && Last(opts, PickHome).Some? && Clean(Last(opts, PickHome).value)
                        && Clean(Last(opts, PickShell).value))
                  && (kind == Shadow ==> hash.Some? && Clean(hash.value)))
  {
    var s := LastOnes(opts);
    match kind
    case Passwd =>
      if s.home.Some? {
        PasswdReadsBack(s.user.value, s.id, s.home.value, s.shell.value);
      }
    case Shadow =>
      if hash.Some? {
        ShadowReadsBack(s.user.value, hash.value);
      }
    case Group => GroupReadsBack(s.user.value, s.id);
  }

  /** A witness of the missing line: validation accepts -P without a home directory. */
  lemma ValidationSkipsHome(user: string, shell: string)
    ensures var s := LastOnes([OptKind(Passwd), OptUser(user), OptShell(shell)]);
            Valid(s) && s.kind == Some(Passwd) && Text(Passwd, s, None).None?
  {
    var opts := [OptKind(Passwd), OptUser(user), OptShell(shell)];
    LastPush([OptKind(Passwd), OptUser(user)], OptShell(shell));
    LastPush([OptKind(Passwd)], OptUser(user));
    LastPush([], OptKind(Passwd));
    assert [] + [OptKind(Passwd)] == [OptKind(Passwd)];
    assert [OptKind(Passwd)] + [OptUser(user)] == [OptKind(Passwd), OptUser(user)];
    assert [OptKind(Passwd), OptUser(user)] + [OptShell(shell)] == opts;
  }

  lemma LastPush(opts: seq<Opt>, o: Opt)
    ensures LastOnes(opts + [o]) == Applied(LastOnes(opts), o)
  {
    assert (opts + [o])[..|opts|] == opts;
  }

  // One turn of the option loop.
  function Applied(s: Settings, o: Opt): Settings {
    match o
    case OptHelp => s
    case OptKind(kind) => s.(kind := Some(kind))
    case OptPassword(arg) => s.(password := Some(arg))
    case OptOutput(arg) => s.(output := Some(arg))
    case OptShell(arg) => s.(shell := Some(arg))
    case OptUser(arg) => s.(user := Some(arg))
    case OptHome(arg) => s.(home := Some(arg))
    case OptId(scan) => if scan.Some? then s.(id := scan.value) else s
    case OptUnknown => s
  }
}
