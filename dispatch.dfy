/** wmain: reads argv left to right, collecting the flags -r and -s and
    handing every path to the walker or the converter with the flags
    collected so far. `--` turns option parsing off; -h and an unknown option
    letter end the run on the spot. */
module Dispatch {
  import opened FileSystem
  import opened Console
  import opened Converter
  import opened Streams
  import opened Walker

  datatype Option<T> = None | Some(value: T)

  /** The variables wmain updates while it reads argv. */
  datatype Flags = Flags(parseOptions: bool, recursive: bool, streams: bool)

  const INITIAL_FLAGS := Flags(true, false, false)

  /** Why the run stopped before the end of argv: -h (status 0) or an
      unknown option letter (status 1). */
  datatype Halt = Help | BadOption(option: char)

  /** A path argument with the flags in force when wmain reached it. */
  datatype Job = Job(path: Path, recursive: bool, streams: bool)

  /** What the arguments read so far amount to. */
  datatype Parsed = Parsed(flags: Flags, jobs: seq<Job>, halt: Option<Halt>)

  predicate IsFlagLetter(c: char) {
    c == 'r' || c == 's'
  }

  /** The letters of one option word, one at a time. */
  function Letters(f: Flags, letters: string): (r: (Flags, Option<Halt>))
    // a word made only of r and s sets exactly those flags and goes on
    ensures r.1.None? <==> forall i :: 0 <= i < |letters| ==> IsFlagLetter(letters[i])
    ensures r.1.None? ==>
              r.0 == f.(recursive := f.recursive || 'r' in letters, streams := f.streams || 's' in letters)
    // any other letter stops the run, and the letters are read in order: the
    // first one other than r and s decides, h with the usage text, any other
    // as unknown
    ensures FirstOther(letters) < |letters| ==> r.1 == HaltFor(letters[FirstOther(letters)])
    ensures r.0.parseOptions == f.parseOptions
    ensures (f.recursive ==> r.0.recursive) && (f.streams ==> r.0.streams)
    decreases |letters|
  {
    if letters == [] then (f, None)
    else if letters[0] == 'h' then (f, Some(Help))
    else if letters[0] == 'r' then Letters(f.(recursive := true), letters[1..])
    else if letters[0] == 's' then Letters(f.(streams := true), letters[1..])
    else (f, Some(BadOption(letters[0])))
  }

  /** The position of the first letter other than r and s, or the length of
      `letters` when there is none. */
  function FirstOther(letters: string): (i: nat)
    ensures i <= |letters|
    ensures forall j :: 0 <= j < i ==> IsFlagLetter(letters[j])
    ensures i < |letters| ==> !IsFlagLetter(letters[i])
  {
    if letters == [] || !IsFlagLetter(letters[0]) then 0
    else 1 + FirstOther(letters[1..])
  }

  /** How the run stops at option letter `c`, when it is not r or s. */
  function HaltFor(c: char): Option<Halt> {
    if c == 'h' then Some(Help) else Some(BadOption(c))
  }

  /** One argument read in state `p`. */
  function Step(p: Parsed, a: Path): Parsed {
    if p.halt.Some? then p
    else if a == "--" then p.(flags := p.flags.(parseOptions := false))
    else if p.flags.parseOptions && |a| > 0 && a[0] == '-' then
      var (flags, halt) := Letters(p.flags, a[1..]);
      p.(flags := flags, halt := halt)
    else p.(jobs := p.jobs + [Job(a, p.flags.recursive, p.flags.streams)])
  }

  /** What the arguments `args` (argv without argv[0]) amount to. */
  function Parse(args: seq<Path>): Parsed
    decreases |args|
  {
    if args == [] then Parsed(INITIAL_FLAGS, [], None)
    else Step(Parse(args[..|args| - 1]), args[|args| - 1])
  }

  /** Reading `pre` and then `post` ends with reading the last of `post`. */
  lemma ParseLast(pre: seq<Path>, post: seq<Path>)
    requires post != []
    ensures Parse(pre + post) == Step(Parse(pre + post[..|post| - 1]), post[|post| - 1])
  {
    var whole := pre + post;
    assert whole[..|whole| - 1] == pre + post[..|post| - 1];
  }

  /** Reading the first `i + 1` arguments ends with reading argument `i`. */
  lemma ParseNext(args: seq<Path>, i: nat)
    requires i < |args|
    ensures Parse(args[..i + 1]) == Step(Parse(args[..i]), args[i])
  {
    assert args[..i + 1] == args[..i] + [args[i]];
    ParseLast(args[..i], [args[i]]);
  }

  /** "--" is never a path, and every path is one of the arguments. */
  lemma {:induction false} JobPaths(args: seq<Path>)
    ensures forall j :: j in Parse(args).jobs ==> j.path in args && j.path != "--"
    decreases |args|
  {
    if args != [] {
      var init := args[..|args| - 1];
      JobPaths(init);
      forall j | j in Parse(args).jobs
        ensures j.path in args && j.path != "--"
      {
        if j in Parse(init).jobs {
          var k :| 0 <= k < |init| && init[k] == j.path;
          assert args[k] == j.path;
        }
      }
    }
  }

  function ExitStatus(args: seq<Path>): int {
    var halt := Parse(args).halt;
    if halt.Some? && halt.value.BadOption? then 1 else 0
  }

  function HaltEvents(halt: Option<Halt>): seq<Event> {
    match halt
    case None => []
    case Some(Help) => [Usage]
    case Some(BadOption(c)) => [UnknownOption(c)]
  }

  /** What wmain does with one path. Under -r the walk runs first; the path
      is converted directly only when the walk answers ERROR_DIRECTORY. */
  function Dispatch(v: Volume, job: Job): (r: seq<Event>)
    // a path that cannot be listed as a directory is converted directly, -r or not
    ensures Resolve(v, job.path).listing.error == ERROR_DIRECTORY ==>
              r == Convert(job.path, Resolve(v, job.path), job.streams)
    // without -r nothing is walked
    ensures !job.recursive ==> r == Convert(job.path, Resolve(v, job.path), job.streams)
    // under -r the walk's lines come first, and direct processing follows
    // them only when the walk returns ERROR_DIRECTORY
    ensures job.recursive ==>
              var w := Walk(job.path, Resolve(v, job.path), job.streams);
              w.events <= r && (w.error != ERROR_DIRECTORY ==> r == w.events)
    ensures job.recursive && Walk(job.path, Resolve(v, job.path), job.streams).error == ERROR_DIRECTORY ==>
              r[|Walk(job.path, Resolve(v, job.path), job.streams).events|..]
              == Convert(job.path, Resolve(v, job.path), job.streams)
  {
    var node := Resolve(v, job.path);
    if job.recursive then
      var w := Walk(job.path, node, job.streams);
      if w.error != ERROR_DIRECTORY then w.events else w.events + Convert(job.path, node, job.streams)
    else Convert(job.path, node, job.streams)
  }

  function JobsEvents(v: Volume, jobs: seq<Job>): seq<Event> {
    if jobs == [] then []
    else JobsEvents(v, jobs[..|jobs| - 1]) + Dispatch(v, jobs[|jobs| - 1])
  }

  /** Everything wmain prints for `args`. */
  function Report(v: Volume, args: seq<Path>): seq<Event> {
    if args == [] then [Usage]
    else JobsEvents(v, Parse(args).jobs) + HaltEvents(Parse(args).halt)
  }

  /** The argv loop of wmain. The exit status does not depend on the files. */
  method Run(v: Volume, args: seq<Path>) returns (status: int, events: seq<Event>)
    ensures status == ExitStatus(args)
    ensures events == Report(v, args)
  {
    if |args| == 0 {
      return 0, [Usage];
    }
    var parseOptions, recursive, streams := true, false, false;
    events := [];
    var i := 0;
    while i < |args|
      invariant 0 <= i <= |args|
      invariant Parse(args[..i]).halt.None?
      invariant Parse(args[..i]).flags == Flags(parseOptions, recursive, streams)
      invariant events == JobsEvents(v, Parse(args[..i]).jobs)
    {
      var a := args[i];
      ghost var before := Parse(args[..i]);
      ParseNext(args, i);
      if a == "--" {
        parseOptions := false;
      } else if parseOptions && |a| > 0 && a[0] == '-' {
        var halt;
        recursive, streams, halt := ReadOptions(recursive, streams, a);
        if halt.Some? {
          HaltedAt(args, i + 1);
          return if halt.value.BadOption? then 1 else 0, events + HaltEvents(halt);
        }
      } else {
        var out := Process(v, Job(a, recursive, streams));
        JobsEventsSnoc(v, before.jobs, Job(a, recursive, streams));
        events := events + out;
      }
      i := i + 1;
    }
    assert args[..i] == args;
    status := 0;
  }

  /** The inner loop of wmain over the letters after the '-' of `word`. */
  method ReadOptions(recursive: bool, streams: bool, word: Path)
    returns (recursive': bool, streams': bool, halt: Option<Halt>)
    requires |word| > 0
    ensures (Flags(true, recursive', streams'), halt) == Letters(Flags(true, recursive, streams), word[1..])
  {
    recursive', streams' := recursive, streams;
    var k := 1;
    while k < |word|
      invariant 1 <= k <= |word|
      invariant Letters(Flags(true, recursive', streams'), word[k..]) == Letters(Flags(true, recursive, streams), word[1..])
    {
      var c := word[k];
      assert word[k..][0] == c && word[k..][1..] == word[k + 1..];
      if c == 'h' {
        return recursive', streams', Some(Help);
      } else if c == 'r' {
        recursive' := true;
      } else if c == 's' {
        streams' := true;
      } else {
        return recursive', streams', Some(BadOption(c));
      }
      k := k + 1;
    }
    halt := None;
  }

  /** wmain's handling of one path argument. */
  method Process(v: Volume, job: Job) returns (events: seq<Event>)
    ensures events == Dispatch(v, job)
  {
    var node := Resolve(v, job.path);
    events := [];
    var walked := false;
    if job.recursive {
      var err;
      err, events := RecursiveDesparse(job.path, node, job.streams);
      walked := err != ERROR_DIRECTORY;
    }
    if !walked {
      var direct;
      if job.streams {
        direct := DesparseStreams(job.path, node.streams);
      } else {
        direct := [Status(job.path, Desparse(node.probe).outcome)];
      }
      events := events + direct;
    }
  }

  /** A run stopped by the first `i` arguments ends as they left it. */
  lemma HaltedAt(args: seq<Path>, i: nat)
    requires i <= |args| && Parse(args[..i]).halt.Some?
    ensures Parse(args) == Parse(args[..i])
  {
    HaltIsFinal(args[..i], args[i..]);
    assert args[..i] + args[i..] == args;
  }

  lemma JobsEventsSnoc(v: Volume, jobs: seq<Job>, job: Job)
    ensures JobsEvents(v, jobs + [job]) == JobsEvents(v, jobs) + Dispatch(v, job)
  {
    assert (jobs + [job])[..|jobs|] == jobs;
  }

  /** Once -h or an unknown option has stopped the run, no later argument
      is looked at. */
  lemma {:induction false} HaltIsFinal(pre: seq<Path>, post: seq<Path>)
    requires Parse(pre).halt.Some?
    ensures Parse(pre + post) == Parse(pre)
    decreases |post|
  {
    if post != [] {
      HaltIsFinal(pre, post[..|post| - 1]);
      ParseLast(pre, post);
    } else {
      assert pre + post == pre;
    }
  }

  /** The jobs made of `args` once option parsing is off: every argument
      except "--" is a path, whatever it starts with. */
  function Literal(args: seq<Path>, f: Flags): seq<Job> {
    if args == [] then []
    else
      var a := args[|args| - 1];
      Literal(args[..|args| - 1], f) + (if a == "--" then [] else [Job(a, f.recursive, f.streams)])
  }

  /** After "--" option parsing stays off. */
  lemma {:induction false} DoubleDashEndsOptions(args: seq<Path>)
    requires "--" in args && Parse(args).halt.None?
    ensures !Parse(args).flags.parseOptions
    decreases |args|
  {
    var init := args[..|args| - 1];
    var a := args[|args| - 1];
    assert Parse(args) == Step(Parse(init), a);
    if a != "--" {
      assert "--" in init by {
        var k :| 0 <= k < |args| && args[k] == "--";
        assert init[k] == "--";
      }
      DoubleDashEndsOptions(init);
    }
  }

  /** Once "--" has been read, every later argument except "--" itself is
      taken as a path with the flags collected before, no later argument is
      read as options and the run is no longer stopped. */
  lemma {:induction false} AfterDoubleDash(pre: seq<Path>, post: seq<Path>)
    requires "--" in pre && Parse(pre).halt.None?
    ensures Parse(pre + post)
            == Parsed(Parse(pre).flags, Parse(pre).jobs + Literal(post, Parse(pre).flags), None)
    decreases |post|
  {
    var f := Parse(pre).flags;
    DoubleDashEndsOptions(pre);
    if post == [] {
      assert pre + post == pre;
    } else {
      var init := post[..|post| - 1];
      AfterDoubleDash(pre, init);
      ParseLast(pre, post);
      StepLiteral(Parse(pre + init), post[|post| - 1]);
    }
  }

  /** With option parsing off, an argument is a path unless it is "--". */
  lemma StepLiteral(p: Parsed, a: Path)
    requires p.halt.None? && !p.flags.parseOptions
    ensures Step(p, a)
            == p.(jobs := p.jobs + (if a == "--" then [] else [Job(a, p.flags.recursive, p.flags.streams)]))
  {
  }

  /** An argument that is just "-" is skipped while options are parsed. */
  lemma LoneDashIgnored(pre: seq<Path>)
    requires Parse(pre).flags.parseOptions
    ensures Parse(pre + ["-"]) == Parse(pre)
  {
    assert (pre + ["-"])[..|pre|] == pre;
  }

  /** -r and -s, once given, stay on, and option parsing, once off, stays off. */
  lemma {:induction false} FlagsPersist(pre: seq<Path>, post: seq<Path>)
    ensures Parse(pre).flags.recursive ==> Parse(pre + post).flags.recursive
    ensures Parse(pre).flags.streams ==> Parse(pre + post).flags.streams
    ensures !Parse(pre).flags.parseOptions ==> !Parse(pre + post).flags.parseOptions
    decreases |post|
  {
    if post == [] {
      assert pre + post == pre;
    } else {
      FlagsPersist(pre, post[..|post| - 1]);
      ParseLast(pre, post);
    }
  }

  /** Paths are handled in argv order: later arguments only add jobs after
      the jobs of earlier ones. */
  lemma {:induction false} JobsInOrder(pre: seq<Path>, post: seq<Path>)
    ensures Parse(pre).jobs <= Parse(pre + post).jobs
    decreases |post|
  {
    if post == [] {
      assert pre + post == pre;
    } else {
      JobsInOrder(pre, post[..|post| - 1]);
      ParseLast(pre, post);
    }
  }

  /** A path argument is handled with the flags set by the arguments before
      it, right after the paths that precede it. */
  lemma JobFlags(args: seq<Path>, i: nat)
    requires i < |args| && Parse(args[..i]).halt.None? && args[i] != "--"
    requires !(Parse(args[..i]).flags.parseOptions && |args[i]| > 0 && args[i][0] == '-')
    ensures |Parse(args[..i]).jobs| < |Parse(args).jobs|
    ensures Parse(args).jobs[|Parse(args[..i]).jobs|]
            == Job(args[i], Parse(args[..i]).flags.recursive, Parse(args[..i]).flags.streams)
  {
    ParseNext(args, i);
    var before, after := Parse(args[..i]), Parse(args[..i + 1]);
    assert after.jobs == before.jobs + [Job(args[i], before.flags.recursive, before.flags.streams)];
    JobsInOrder(args[..i + 1], args[i + 1..]);
    assert args[..i + 1] + args[i + 1..] == args;
    assert after.jobs <= Parse(args).jobs;
  }
}
