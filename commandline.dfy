/**
 * The program's command line: a default configuration that flag/value pairs
 * override one pair at a time, each flag checking its own value. A rejected
 * argument (std::invalid_argument, or a failed std::stoi / std::stod) is a
 * `Failure` carrying the reason; `-h` / `--help` in first position asks for
 * the usage text instead of a configuration.
 *
 * `stoi` and `stod` stand for std::stoi and std::stod: `None` is the call
 * throwing, `Some(v)` is the value it returns.
 */
module CommandLine {
  import opened Wrappers

  /** The visible part of the complex plane. */
  datatype ViewPort = ViewPort(minx: real, maxx: real, miny: real, maxy: real)

  /** Everything the program takes from its arguments. */
  datatype Config = Config(n: int, width: int, height: int, viewport: ViewPort,
                           maxIterations: int, tolerance: real,
                           write: bool, writePath: string)

  /** The configuration before any argument is looked at. */
  function DefaultConfig(): (c: Config)
    ensures Valid(c)
  {
    Config(5, 1000, 1000, ViewPort(-2.0, 2.0, -2.0, 2.0), 40, 0.0001, false, "")
  }

  /** The viewport `-v r` asks for: the square from -r to r on both axes. */
  function Square(r: real): ViewPort
  {
    ViewPort(-r, r, -r, r)
  }

  /** Why the arguments were refused. */
  datatype ParseError =
    | NotEnoughArguments
    | InvalidRoots(value: string)
    | InvalidSize(value: string)
    | InvalidIterations(value: string)
    | InvalidTolerance(value: string)
    | UnknownArgument(arg: string)
      /** std::stoi or std::stod could not convert the value. */
    | ConversionFailed(value: string)

  /** What the arguments ask for: the usage text, or a run with a configuration. */
  datatype Command = ShowHelp | Run(config: Config)

  predicate IsHelp(arg: string)
  {
    arg == "--help" || arg == "-h"
  }

  /** The six flags that take a value. */
  predicate IsFlag(arg: string)
  {
    arg == "-n" || arg == "-s" || arg == "-v" || arg == "-i" || arg == "-t" || arg == "-w"
  }

  /**
   * The flag/value pairs the program accepts, stated flag by flag: a root
   * count of at least 1, a positive size, any viewport number, a positive
   * iteration bound, a positive tolerance, any file name.
   */
  predicate Accepted(flag: string, value: string, stoi: string -> Option<int>, stod: string -> Option<real>)
  {
    || (flag == "-n" && stoi(value).Some? && stoi(value).value >= 1)
    || (flag == "-s" && stoi(value).Some? && stoi(value).value > 0)
    || (flag == "-v" && stod(value).Some?)
    || (flag == "-i" && stoi(value).Some? && stoi(value).value > 0)
    || (flag == "-t" && stod(value).Some? && stod(value).value > 0.0)
    || flag == "-w"
  }

  /** One pass of the parsing loop: the pair (flag, value) applied to conf. */
  function ApplyFlag(conf: Config, flag: string, value: string,
                     stoi: string -> Option<int>, stod: string -> Option<real>): (r: Result<Config, ParseError>)
    ensures r.Success? <==> Accepted(flag, value, stoi, stod)
    ensures !IsFlag(flag) ==> r == Failure(UnknownArgument(flag))
  {
    if flag == "-n" then
      match stoi(value)
      case None => Failure(ConversionFailed(value))
      case Some(k) => if k < 1 then Failure(InvalidRoots(value)) else Success(conf.(n := k))
    else if flag == "-s" then
      match stoi(value)
      case None => Failure(ConversionFailed(value))
      case Some(size) => if size <= 0 then Failure(InvalidSize(value)) else Success(conf.(width := size, height := size))
    else if flag == "-v" then
      match stod(value)
      case None => Failure(ConversionFailed(value))
      case Some(r) => Success(conf.(viewport := Square(r)))
    else if flag == "-i" then
      match stoi(value)
      case None => Failure(ConversionFailed(value))
      case Some(k) => if k <= 0 then Failure(InvalidIterations(value)) else Success(conf.(maxIterations := k))
    else if flag == "-t" then
      match stod(value)
      case None => Failure(ConversionFailed(value))
      case Some(t) => if t <= 0.0 then Failure(InvalidTolerance(value)) else Success(conf.(tolerance := t))
    else if flag == "-w" then
      Success(conf.(write := true, writePath := value))
    else
      Failure(UnknownArgument(flag))
  }

  /** The parsing loop from position i on, with conf the configuration built so far. */
  function ParseFrom(args: seq<string>, i: nat, conf: Config,
                     stoi: string -> Option<int>, stod: string -> Option<real>): Result<Config, ParseError>
    decreases |args| - i
  {
    if i >= |args| then Success(conf)
    else if i + 1 >= |args| then Failure(NotEnoughArguments)
    else match ApplyFlag(conf, args[i], args[i + 1], stoi, stod)
      case Failure(e) => Failure(e)
      case Success(next) => ParseFrom(args, i + 2, next, stoi, stod)
  }

  /** parseArgs on argv (args[0] is the program name): the help request, or the pairs from position 1 on. */
  function Parse(args: seq<string>, stoi: string -> Option<int>, stod: string -> Option<real>): (r: Result<Command, ParseError>)
    ensures r == Success(ShowHelp) <==> |args| >= 2 && IsHelp(args[1])
  {
    if |args| >= 2 && IsHelp(args[1]) then Success(ShowHelp)
    else match ParseFrom(args, 1, DefaultConfig(), stoi, stod)
      case Failure(e) => Failure(e)
      case Success(conf) => Success(Run(conf))
  }

  /** parseArgs: the loop over the flag/value pairs, advancing two arguments at a time. */
  method ParseArgs(args: seq<string>, stoi: string -> Option<int>, stod: string -> Option<real>)
    returns (r: Result<Command, ParseError>)
    ensures r == Parse(args, stoi, stod)
  {
    if |args| >= 2 && (args[1] == "--help" || args[1] == "-h") {
      return Success(ShowHelp);
    }
    var conf := DefaultConfig();
    var i := 1;
    while i < |args|
      invariant ParseFrom(args, i, conf, stoi, stod) == ParseFrom(args, 1, DefaultConfig(), stoi, stod)
      decreases |args| - i
    {
      if i + 1 >= |args| {
        return Failure(NotEnoughArguments);
      }
      var arg := args[i];
      var argValue := args[i + 1];
      if arg == "-n" {
        var k := stoi(argValue);
        if k.None? {
          return Failure(ConversionFailed(argValue));
        }
        conf := conf.(n := k.value);
        if conf.n < 1 {
          return Failure(InvalidRoots(argValue));
        }
      } else if arg == "-s" {
        var size := stoi(argValue);
        if size.None? {
          return Failure(ConversionFailed(argValue));
        }
        if size.value <= 0 {
          return Failure(InvalidSize(argValue));
        }
        conf := conf.(width := size.value, height := size.value);
      } else if arg == "-v" {
        var viewport := stod(argValue);
        if viewport.None? {
          return Failure(ConversionFailed(argValue));
        }
        conf := conf.(viewport := ViewPort(-viewport.value, viewport.value, -viewport.value, viewport.value));
      } else if arg == "-i" {
        var k := stoi(argValue);
        if k.None? {
          return Failure(ConversionFailed(argValue));
        }
        conf := conf.(maxIterations := k.value);
        if conf.maxIterations <= 0 {
          return Failure(InvalidIterations(argValue));
        }
      } else if arg == "-t" {
        var t := stod(argValue);
        if t.None? {
          return Failure(ConversionFailed(argValue));
        }
        conf := conf.(tolerance := t.value);
        if conf.tolerance <= 0.0 {
          return Failure(InvalidTolerance(argValue));
        }
      } else if arg == "-w" {
        conf := conf.(write := true, writePath := argValue);
      } else {
        return Failure(UnknownArgument(arg));
      }
      i := i + 2;
    }
    return Success(Run(conf));
  }

  // ---------------------------------------------------------------------------
  // What the parser promises
  // ---------------------------------------------------------------------------

  /** With no arguments after the program name the configuration is the default one. */
  lemma NoArguments(args: seq<string>, stoi: string -> Option<int>, stod: string -> Option<real>)
    requires |args| <= 1
    ensures Parse(args, stoi, stod) == Success(Run(DefaultConfig()))
    ensures var c := DefaultConfig();
      && c.n == 5 && c.width == 1000 && c.height == 1000
      && c.viewport == ViewPort(-2.0, 2.0, -2.0, 2.0)
      && c.maxIterations == 40 && c.tolerance == 0.0001
      && !c.write && c.writePath == ""
  {
  }

  /** From position i the arguments form whole pairs, each of them accepted. */
  predicate AllAccepted(args: seq<string>, i: nat, stoi: string -> Option<int>, stod: string -> Option<real>)
  {
    && (i >= |args| || (|args| - i) % 2 == 0)
    && forall j :: i <= j < |args| - 1 && (j - i) % 2 == 0 ==> Accepted(args[j], args[j + 1], stoi, stod)
  }

  /** Parsing from position i succeeds exactly when the rest is whole pairs that are all accepted, whatever was built before. */
  lemma {:induction false} ParseSucceedsIff(args: seq<string>, i: nat, conf: Config,
                                            stoi: string -> Option<int>, stod: string -> Option<real>)
    ensures ParseFrom(args, i, conf, stoi, stod).Success? <==> AllAccepted(args, i, stoi, stod)
    decreases |args| - i
  {
    if i >= |args| {
    } else if i + 1 >= |args| {
      assert (|args| - i) % 2 == 1;
    } else {
      var step := ApplyFlag(conf, args[i], args[i + 1], stoi, stod);
      if step.Success? {
        ParseSucceedsIff(args, i + 2, step.value, stoi, stod);
        if AllAccepted(args, i + 2, stoi, stod) {
          forall j | i <= j < |args| - 1 && (j - i) % 2 == 0
            ensures Accepted(args[j], args[j + 1], stoi, stod)
          {
            if j > i {
              assert (j - (i + 2)) % 2 == 0;
            }
          }
        }
        if AllAccepted(args, i, stoi, stod) {
          forall j | i + 2 <= j < |args| - 1 && (j - (i + 2)) % 2 == 0
            ensures Accepted(args[j], args[j + 1], stoi, stod)
          {
            assert (j - i) % 2 == 0;
          }
        }
      } else {
        assert !Accepted(args[i], args[i + 1], stoi, stod);
      }
    }
  }

  /** A whole command line is accepted exactly when it has no help request and its arguments form accepted pairs. */
  lemma CommandLineAccepted(args: seq<string>, stoi: string -> Option<int>, stod: string -> Option<real>)
    requires !(|args| >= 2 && IsHelp(args[1]))
    ensures Parse(args, stoi, stod).Success? <==> AllAccepted(args, 1, stoi, stod)
  {
    ParseSucceedsIff(args, 1, DefaultConfig(), stoi, stod);
  }

  /** Parsing from i with extra arguments appended: once the pairs of args are used up, the extra ones are parsed from there. */
  lemma {:induction false} ParseAppend(args: seq<string>, extra: seq<string>, i: nat, conf: Config,
                                       stoi: string -> Option<int>, stod: string -> Option<real>)
    requires i <= |args| && (|args| - i) % 2 == 0
    ensures ParseFrom(args + extra, i, conf, stoi, stod) ==
            match ParseFrom(args, i, conf, stoi, stod)
            case Failure(e) => Failure(e)
            case Success(c) => ParseFrom(args + extra, |args|, c, stoi, stod)
    decreases |args| - i
  {
    if i < |args| {
      var all := args + extra;
      assert all[i] == args[i] && all[i + 1] == args[i + 1];
      var step := ApplyFlag(conf, args[i], args[i + 1], stoi, stod);
      if step.Success? {
        ParseAppend(args, extra, i + 2, step.value, stoi, stod);
      }
    }
  }

  /** A flag left without its value is refused as "Not enough arguments" once every pair before it was accepted. */
  lemma DanglingFlag(args: seq<string>, flag: string, stoi: string -> Option<int>, stod: string -> Option<real>)
    requires |args| >= 1 && |args| % 2 == 1
    requires ParseFrom(args, 1, DefaultConfig(), stoi, stod).Success?
    requires !(|args| == 1 && IsHelp(flag))
    ensures Parse(args + [flag], stoi, stod) == Failure(NotEnoughArguments)
  {
    ParseAppend(args, [flag], 1, DefaultConfig(), stoi, stod);
    if |args| >= 2 {
      assert (args + [flag])[1] == args[1];
    }
  }

  /** The value of the last pair at or after position i whose flag is `flag`, pairs counted from i. */
  function LastValue(args: seq<string>, i: nat, flag: string): Option<string>
    decreases |args| - i
  {
    if i + 1 >= |args| then None
    else match LastValue(args, i + 2, flag)
      case Some(v) => Some(v)
      case None => if args[i] == flag then Some(args[i + 1]) else None
  }

  /**
   * The field of c that `flag` sets: taken from last, the value of the last
   * pair with that flag, when there is one, and otherwise as in `before`.
   */
  predicate SetBy(flag: string, last: Option<string>, c: Config, before: Config,
                  stoi: string -> Option<int>, stod: string -> Option<real>)
  {
    if flag == "-n" then
      if last.Some? then stoi(last.value) == Some(c.n) else c.n == before.n
    else if flag == "-s" then
      if last.Some? then stoi(last.value) == Some(c.width) && c.height == c.width
      else c.width == before.width && c.height == before.height
    else if flag == "-v" then
      if last.Some? then stod(last.value).Some? && c.viewport == Square(stod(last.value).value)
      else c.viewport == before.viewport
    else if flag == "-i" then
      if last.Some? then stoi(last.value) == Some(c.maxIterations) else c.maxIterations == before.maxIterations
    else if flag == "-t" then
      if last.Some? then stod(last.value) == Some(c.tolerance) else c.tolerance == before.tolerance
    else if flag == "-w" then
      if last.Some? then c.write && c.writePath == last.value
      else c.write == before.write && c.writePath == before.writePath
    else
      true
  }

  /** The field one flag sets comes from the last pair with that flag, or stays as it was. */
  lemma {:induction false} LastPairSets(args: seq<string>, i: nat, conf: Config, flag: string,
                                        stoi: string -> Option<int>, stod: string -> Option<real>)
    requires ParseFrom(args, i, conf, stoi, stod).Success?
    ensures SetBy(flag, LastValue(args, i, flag), ParseFrom(args, i, conf, stoi, stod).value, conf, stoi, stod)
    decreases |args| - i
  {
    if i + 1 < |args| {
      var next := ApplyFlag(conf, args[i], args[i + 1], stoi, stod).value;
      LastPairSets(args, i + 2, next, flag, stoi, stod);
    }
  }

  /**
   * Each field of a successful parse comes from the last pair that sets it;
   * a field no pair sets keeps the value it had before.
   */
  lemma LastPairWins(args: seq<string>, i: nat, conf: Config,
                     stoi: string -> Option<int>, stod: string -> Option<real>)
    requires ParseFrom(args, i, conf, stoi, stod).Success?
    ensures var c := ParseFrom(args, i, conf, stoi, stod).value;
      forall flag | IsFlag(flag) :: SetBy(flag, LastValue(args, i, flag), c, conf, stoi, stod)
  {
    forall flag | IsFlag(flag)
      ensures SetBy(flag, LastValue(args, i, flag), ParseFrom(args, i, conf, stoi, stod).value, conf, stoi, stod)
    {
      LastPairSets(args, i, conf, flag, stoi, stod);
    }
  }

  /**
   * The configurations parsing can produce: at least one root, a square
   * image of positive size, a positive iteration bound and tolerance, a
   * viewport centred on the origin with equal extent on both axes, and an
   * empty file name unless -w was given.
   */
  predicate Valid(c: Config)
  {
    && c.n >= 1
    && c.width >= 1 && c.height == c.width
    && c.maxIterations >= 1
    && c.tolerance > 0.0
    && c.viewport.minx == -c.viewport.maxx && c.viewport.miny == c.viewport.minx && c.viewport.maxy == c.viewport.maxx
    && (!c.write ==> c.writePath == "")
  }

  /** Every pair the parser accepts keeps a configuration valid. */
  lemma {:induction false} ParseKeepsValid(args: seq<string>, i: nat, conf: Config,
                                           stoi: string -> Option<int>, stod: string -> Option<real>)
    requires Valid(conf)
    requires ParseFrom(args, i, conf, stoi, stod).Success?
    ensures Valid(ParseFrom(args, i, conf, stoi, stod).value)
    decreases |args| - i
  {
    if i + 1 < |args| {
      ParseKeepsValid(args, i + 2, ApplyFlag(conf, args[i], args[i + 1], stoi, stod).value, stoi, stod);
    }
  }

  /** Every configuration the command line yields is valid; in particular it meets the fractal kernel's n >= 1 and tolerance > 0. */
  lemma ParsedConfigValid(args: seq<string>, stoi: string -> Option<int>, stod: string -> Option<real>)
    requires Parse(args, stoi, stod).Success? && Parse(args, stoi, stod).value.Run?
    ensures Valid(Parse(args, stoi, stod).value.config)
  {
    ParseKeepsValid(args, 1, DefaultConfig(), stoi, stod);
  }

  /** The value of -v is not checked: a zero or negative extent is taken as it is. */
  lemma ViewportUnchecked(prog: string, value: string, stoi: string -> Option<int>, stod: string -> Option<real>)
    requires stod(value).Some?
    ensures Parse([prog, "-v", value], stoi, stod) ==
            Success(Run(DefaultConfig().(viewport := ViewPort(-stod(value).value, stod(value).value,
                                                              -stod(value).value, stod(value).value))))
  {
    var args := [prog, "-v", value];
    assert args[1] == "-v" && args[2] == value;
    assert ParseFrom(args, 3, DefaultConfig().(viewport := Square(stod(value).value)), stoi, stod).Success?;
  }

  /**
   * The errors a single pair is refused with: an unconvertible number, a
   * value out of its flag's range, or a flag that is not one of the six.
   */
  lemma SinglePairErrors(prog: string, flag: string, value: string,
                         stoi: string -> Option<int>, stod: string -> Option<real>)
    requires !IsHelp(flag)
    ensures flag in ["-n", "-s", "-i"] && stoi(value).None? ==>
              Parse([prog, flag, value], stoi, stod) == Failure(ConversionFailed(value))
    ensures flag in ["-v", "-t"] && stod(value).None? ==>
              Parse([prog, flag, value], stoi, stod) == Failure(ConversionFailed(value))
    ensures flag == "-n" && stoi(value).Some? && stoi(value).value < 1 ==>
              Parse([prog, flag, value], stoi, stod) == Failure(InvalidRoots(value))
    ensures flag == "-s" && stoi(value).Some? && stoi(value).value <= 0 ==>
              Parse([prog, flag, value], stoi, stod) == Failure(InvalidSize(value))
    ensures flag == "-i" && stoi(value).Some? && stoi(value).value <= 0 ==>
              Parse([prog, flag, value], stoi, stod) == Failure(InvalidIterations(value))
    ensures flag == "-t" && stod(value).Some? && stod(value).value <= 0.0 ==>
              Parse([prog, flag, value], stoi, stod) == Failure(InvalidTolerance(value))
    ensures !IsFlag(flag) ==> Parse([prog, flag, value], stoi, stod) == Failure(UnknownArgument(flag))
  {
  }

  /** -h after the first position is not a help request but an unknown argument. */
  lemma LateHelpIsUnknown(prog: string, flag: string, value: string, help: string, rest: string,
                          stoi: string -> Option<int>, stod: string -> Option<real>)
    requires IsHelp(help) && !IsHelp(flag) && Accepted(flag, value, stoi, stod)
    ensures Parse([prog, flag, value, help, rest], stoi, stod) == Failure(UnknownArgument(help))
  {
    var args := [prog, flag, value, help, rest];
    assert args[1] == flag && args[2] == value && args[3] == help && args[4] == rest;
    var next := ApplyFlag(DefaultConfig(), flag, value, stoi, stod).value;
    assert ParseFrom(args, 3, next, stoi, stod) == Failure(UnknownArgument(help));
  }
}
