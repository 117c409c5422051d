/**
 * The command-line switch of spi-pipe's main: each option getopt_long
 * hands back either updates the configuration or ends the program at once.
 * Tokenising argv and converting the -b argument are not modelled: an
 * option arrives decoded, and -b carries what sscanf("%d") made of its
 * argument (None when nothing converted).
 */
module Config {
  import opened Basics

  /** Value of blocksize when no -b is given. */
  const DefaultBlocksize: nat := 1
  /** Largest blocksize -b accepts. */
  const MaxBlocksize: nat := 16384

  datatype ExitCode = Success | Failure

  datatype Opt =
    | DeviceOpt(path: string)        // -d / --device=<dev>
    | BlocksizeOpt(arg: Option<int>) // -b / --blocksize=<int>
    | ReadonlyOpt                    // -r / --readonly
    | HelpOpt                        // -h / --help
    | VersionOpt                     // -v / --version
    | UnknownOpt                     // anything getopt_long does not recognise

  /** Either the settings the transfer loop runs with, or an exit of the
      program before any buffer is allocated. */
  datatype Config = Settings(device: Option<string>, blocksize: nat, readonly: bool) | Exit(code: ExitCode)

  /** The check on a -b argument: it converted, and lies in 0..MaxBlocksize. */
  predicate ValidBlocksize(arg: Option<int>)
  {
    arg.Some? && 0 <= arg.value <= MaxBlocksize
  }

  /** Whether handling this option ends the program. */
  predicate Exits(o: Opt)
  {
    o.HelpOpt? || o.VersionOpt? || o.UnknownOpt? || (o.BlocksizeOpt? && !ValidBlocksize(o.arg))
  }

  /** The exit code of an option that ends the program. */
  function ExitCodeOf(o: Opt): (code: ExitCode)
  {
    if o.HelpOpt? || o.VersionOpt? then Success else Failure
  }

  /** One case of the switch. */
  function Apply(c: Config, o: Opt): (c': Config)
    requires c.Settings?
  {
    match o
    case ReadonlyOpt => c.(readonly := true)
    case HelpOpt => Exit(Success)
    case VersionOpt => Exit(Success)
    case DeviceOpt(p) => c.(device := Some(p))
    case BlocksizeOpt(arg) => if ValidBlocksize(arg) then c.(blocksize := arg.value) else Exit(Failure)
    case UnknownOpt => Exit(Failure)
  }

  /** The options handled in order, stopping at the first that exits. */
  function ApplyAll(c: Config, opts: seq<Opt>): (c': Config)
    decreases |opts|
  {
    if c.Exit? || opts == [] then c else ApplyAll(Apply(c, opts[0]), opts[1..])
  }

  /** The configuration the options produce, starting from the defaults. */
  function Configure(opts: seq<Opt>): (c: Config)
  {
    ApplyAll(Settings(None, DefaultBlocksize, false), opts)
  }

  /** The option loop of main. */
  method ParseOptions(opts: seq<Opt>) returns (c: Config)
    ensures c == Configure(opts)
  {
    var device: Option<string> := None;
    var blocksize: int := DefaultBlocksize;
    var readonly := false;
    var i := 0;
    while i < |opts|
      invariant 0 <= i <= |opts|
      invariant 0 <= blocksize <= MaxBlocksize
      invariant ApplyAll(Settings(device, blocksize, readonly), opts[i..]) == Configure(opts)
    {
      match opts[i] {
        case ReadonlyOpt =>
          readonly := true;
        case HelpOpt =>
          return Exit(Success);
        case VersionOpt =>
          return Exit(Success);
        case DeviceOpt(p) =>
          device := Some(p);
        case BlocksizeOpt(arg) =>
          if arg.None? || arg.value < 0 || arg.value > MaxBlocksize {
            return Exit(Failure);
          }
          blocksize := arg.value;
        case UnknownOpt =>
          return Exit(Failure);
      }
      i := i + 1;
    }
    assert opts[i..] == [];
    c := Settings(device, blocksize, readonly);
  }

  /** The -b value last given, or the default. */
  function LastBlocksize(opts: seq<Opt>): (blocksize: int)
  {
    if opts == [] then DefaultBlocksize
    else if opts[|opts| - 1].BlocksizeOpt? && opts[|opts| - 1].arg.Some? then opts[|opts| - 1].arg.value
    else LastBlocksize(opts[..|opts| - 1])
  }

  /** The -d path last given, if any. */
  function LastDevice(opts: seq<Opt>): (device: Option<string>)
  {
    if opts == [] then None
    else if opts[|opts| - 1].DeviceOpt? then Some(opts[|opts| - 1].path)
    else LastDevice(opts[..|opts| - 1])
  }

  lemma {:induction false} ApplyAllSnoc(c: Config, opts: seq<Opt>, o: Opt)
    requires ApplyAll(c, opts).Settings?
    ensures ApplyAll(c, opts + [o]) == Apply(ApplyAll(c, opts), o)
    decreases |opts|
  {
    if opts == [] {
      assert opts + [o] == [o];
      assert [o][1..] == [];
    } else {
      assert (opts + [o])[1..] == opts[1..] + [o];
      ApplyAllSnoc(Apply(c, opts[0]), opts[1..], o);
    }
  }

  /** The options lead to the transfer loop exactly when none of them
      exits: no -h, no -v, no unknown option and no rejected -b. */
  lemma {:induction false} ConfigureSucceedsIff(opts: seq<Opt>)
    ensures Configure(opts).Settings? <==> forall i :: 0 <= i < |opts| ==> !Exits(opts[i])
    decreases |opts|
  {
    if opts != [] {
      var init := opts[..|opts| - 1];
      var o := opts[|opts| - 1];
      assert opts == init + [o];
      ConfigureSucceedsIff(init);
      if Configure(init).Settings? {
        ApplyAllSnoc(Settings(None, DefaultBlocksize, false), init, o);
      } else {
        assert opts == init + [o];
        ApplyAllPrefixExited(Settings(None, DefaultBlocksize, false), init, [o]);
      }
    }
  }

  lemma {:induction false} ApplyAllPrefixExited(c: Config, opts: seq<Opt>, more: seq<Opt>)
    requires ApplyAll(c, opts).Exit?
    ensures ApplyAll(c, opts + more) == ApplyAll(c, opts)
    decreases |opts|
  {
    if c.Exit? {
    } else if opts == [] {
      assert false;
    } else {
      assert (opts + more)[1..] == opts[1..] + more;
      ApplyAllPrefixExited(Apply(c, opts[0]), opts[1..], more);
    }
  }

  /** When the options lead to the transfer loop, blocksize is the last -b
      value (1 when -b is absent) and lies in 0..16384, the device is the
      last -d path, and read-only mode is on exactly when -r was given. */
  lemma {:induction false} ConfigureSettings(opts: seq<Opt>)
    requires Configure(opts).Settings?
    ensures Configure(opts).blocksize == LastBlocksize(opts)
    ensures 0 <= Configure(opts).blocksize <= MaxBlocksize
    ensures Configure(opts).device == LastDevice(opts)
    ensures Configure(opts).readonly <==> exists i :: 0 <= i < |opts| && opts[i] == ReadonlyOpt
    decreases |opts|
  {
    if opts != [] {
      var init := opts[..|opts| - 1];
      var o := opts[|opts| - 1];
      assert opts == init + [o];
      if Configure(init).Exit? {
        ApplyAllPrefixExited(Settings(None, DefaultBlocksize, false), init, [o]);
        assert false;
      }
      ConfigureSettings(init);
      ApplyAllSnoc(Settings(None, DefaultBlocksize, false), init, o);
      if Configure(opts).readonly && o != ReadonlyOpt {
        var i :| 0 <= i < |init| && init[i] == ReadonlyOpt;
        assert opts[i] == ReadonlyOpt;
      }
      forall i | 0 <= i < |init| ensures opts[i] == init[i] { }
    }
  }

  /** The first option that exits decides the outcome: -h and -v exit
      with success, an unknown option or a rejected -b (one that did not
      convert, or lies outside 0..16384) with failure. */
  lemma {:induction false} ConfigureExitsAtFirst(opts: seq<Opt>, i: nat)
    requires i < |opts| && Exits(opts[i])
    requires forall j :: 0 <= j < i ==> !Exits(opts[j])
    ensures Configure(opts) == Exit(ExitCodeOf(opts[i]))
  {
    var head := opts[..i];
    ConfigureSucceedsIff(head);
    ApplyAllSnoc(Settings(None, DefaultBlocksize, false), head, opts[i]);
    assert opts[..i + 1] == head + [opts[i]];
    assert opts == opts[..i + 1] + opts[i + 1..];
    ApplyAllPrefixExited(Settings(None, DefaultBlocksize, false), opts[..i + 1], opts[i + 1..]);
  }
}
