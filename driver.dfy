/**
 * The command-line part of `main` in src/zx0.c: the scan over the hidden
 * options, the derivation of the output name, the checks of the input size
 * against zero and against `skip`, and the backwards-mode sequence of
 * reverse, compress, reverse.  Each `exit(1)` on these paths
 * (src/zx0.c:83, 101, 116, 122) becomes a `Failure`.
 *
 * `args` is the argument vector without the program name: `args[j]` is
 * `argv[j + 1]`, so the C test `argc == i + 1` reads `|args| == j + 1`.
 * The C library call `atoi` is not modelled; it is the parameter `atoi`.
 */
module Driver {
  import opened Results
  import Extension
  import Reverse

  /** The variables `skip`, `shrink_factor` and the three mode flags of `main`. */
  datatype Options = Options(skip: int, shrinkFactor: int, forced: bool, extended: bool, backwards: bool)

  /** Their initial values (src/zx0.c:48-52), which are valid. */
  function Defaults(): (o: Options)
    ensures ValidOptions(o)
  {
    Options(0, 0, false, false, false)
  }

  /** What compression may rely on: a non-negative skip and a shrink factor in [0, 15]. */
  predicate ValidOptions(o: Options) {
    o.skip >= 0 && 0 <= o.shrinkFactor <= 15
  }

  datatype Error =
    | InvalidParameter(arg: string)  // an option other than -f, -x, -b whose atoi value is 0 or below -15
    | Usage                          // neither one nor two positional arguments
    | EmptyInput                     // the input file has size 0
    | SkipsEntireInput               // skip is not below the input size

  /** The loop guard: an argument whose first character is '-' or '+'. */
  predicate IsOption(arg: string) {
    |arg| > 0 && (arg[0] == '-' || arg[0] == '+')
  }

  predicate IsFlag(arg: string) {
    arg == "-f" || arg == "-x" || arg == "-b"
  }

  /** An option the loop accepts, `value` being what `atoi` makes of it. */
  predicate Accepted(arg: string, value: int) {
    IsFlag(arg) || value > 0 || -15 <= value < 0
  }

  /** The body of the option loop for one argument (src/zx0.c:69-85). */
  function ApplyOption(o: Options, arg: string, value: int): (r: Result<Options, Error>)
    ensures r.Success? <==> Accepted(arg, value)
    ensures r.Failure? ==> r.error == InvalidParameter(arg)
    ensures r.Success? && ValidOptions(o) ==> ValidOptions(r.value)
  {
    if arg == "-f" then Success(o.(forced := true))
    else if arg == "-x" then Success(o.(extended := true))
    else if arg == "-b" then Success(o.(backwards := true))
    else if value > 0 then Success(o.(skip := value))
    else if value < 0 && value >= -15 then Success(o.(shrinkFactor := -value))
    else Failure(InvalidParameter(arg))
  }

  /** The options after the loop and the index of the first positional argument. */
  datatype Scan = Scan(options: Options, next: nat)

  /** The option loop from index `i` on, starting from the options `o`. */
  function ScanOptions(args: seq<string>, atoi: string -> int, i: nat, o: Options): (r: Result<Scan, Error>)
    requires i <= |args|
    ensures r.Success? ==> i <= r.value.next <= |args|
    ensures r.Failure? ==> r.error.InvalidParameter?
    decreases |args| - i
  {
    if i < |args| && IsOption(args[i]) then
      match ApplyOption(o, args[i], atoi(args[i]))
      case Failure(e) => Failure(e)
      case Success(o') => ScanOptions(args, atoi, i + 1, o')
    else
      Success(Scan(o, i))
  }

  /** The `for` loop of src/zx0.c:68-86, updating the variables one argument at a time. */
  method ProcessOptions(args: seq<string>, atoi: string -> int) returns (r: Result<Scan, Error>)
    ensures r == ScanOptions(args, atoi, 0, Defaults())
  {
    var skip, shrinkFactor := 0, 0;
    var forced, extended, backwards := false, false, false;
    var i := 0;
    while i < |args| && IsOption(args[i])
      invariant i <= |args|
      invariant ScanOptions(args, atoi, i, Options(skip, shrinkFactor, forced, extended, backwards))
             == ScanOptions(args, atoi, 0, Defaults())
    {
      if args[i] == "-f" {
        forced := true;
      } else if args[i] == "-x" {
        extended := true;
      } else if args[i] == "-b" {
        backwards := true;
      } else {
        var value := atoi(args[i]);
        if value > 0 {
          skip := value;
        } else if value < 0 && value >= -15 {
          shrinkFactor := -value;
        } else {
          return Failure(InvalidParameter(args[i]));
        }
      }
      i := i + 1;
    }
    return Success(Scan(Options(skip, shrinkFactor, forced, extended, backwards), i));
  }

  // ---------------------------------------------------------------------
  // What the loop computes, stated independently of the loop.

  /** The two numeric settings of the option loop. */
  datatype Setting = SkipSetting | ShrinkSetting

  /** The value an argument gives to a setting, if it sets it at all. */
  function SettingOf(s: Setting, arg: string, value: int): (v: Option<int>) {
    if IsFlag(arg) then None
    else match s
      case SkipSetting => if value > 0 then Some(value) else None
      case ShrinkSetting => if value < 0 && value >= -15 then Some(-value) else None
  }

  /** The value given to a setting by the LAST option of `opts` that sets it. */
  function LastSetting(s: Setting, opts: seq<string>, atoi: string -> int): (v: Option<int>) {
    if opts == [] then None
    else
      var a := opts[|opts| - 1];
      match SettingOf(s, a, atoi(a))
      case Some(v) => Some(v)
      case None => LastSetting(s, opts[..|opts| - 1], atoi)
  }

  lemma {:induction false} LastSettingCons(s: Setting, x: string, rest: seq<string>, atoi: string -> int)
    ensures LastSetting(s, [x] + rest, atoi)
         == if LastSetting(s, rest, atoi).Some? then LastSetting(s, rest, atoi) else SettingOf(s, x, atoi(x))
  {
    if rest == [] {
      assert [x] + rest == [x];
      assert [x][..0] == [];
    } else {
      var all := [x] + rest;
      assert all[|all| - 1] == rest[|rest| - 1];
      assert all[..|all| - 1] == [x] + rest[..|rest| - 1];
      LastSettingCons(s, x, rest[..|rest| - 1], atoi);
    }
  }

  /** Every value a setting receives lies in its accepted range. */
  lemma {:induction false} LastSettingRange(s: Setting, opts: seq<string>, atoi: string -> int)
    ensures LastSetting(s, opts, atoi).Some? ==>
      var v := LastSetting(s, opts, atoi).value;
      if s == SkipSetting then v > 0 else 1 <= v <= 15
  {
    if opts != [] {
      LastSettingRange(s, opts[..|opts| - 1], atoi);
    }
  }

  /** Arguments i .. n-1 are all options, and the loop accepts each of them. */
  predicate AllAccepted(args: seq<string>, atoi: string -> int, i: nat, n: nat)
    requires i <= n <= |args|
  {
    forall k :: i <= k < n ==> IsOption(args[k]) && Accepted(args[k], atoi(args[k]))
  }

  /**
   * A successful scan stops at the first positional argument, after
   * accepting every option before it; each flag is set exactly when it occurs
   * among those options, and each numeric setting holds the value of the last
   * option that sets it, or its value before the scan if none does.
   */
  lemma {:induction false} ScanSuccess(args: seq<string>, atoi: string -> int, i: nat, o: Options, r: Scan)
    requires i <= |args| && ScanOptions(args, atoi, i, o) == Success(r)
    ensures i <= r.next <= |args|
    ensures AllAccepted(args, atoi, i, r.next)
    ensures r.next < |args| ==> !IsOption(args[r.next])
    ensures r.options.forced == (o.forced || "-f" in args[i..r.next])
    ensures r.options.extended == (o.extended || "-x" in args[i..r.next])
    ensures r.options.backwards == (o.backwards || "-b" in args[i..r.next])
    ensures r.options.skip == LastSetting(SkipSetting, args[i..r.next], atoi).GetOr(o.skip)
    ensures r.options.shrinkFactor == LastSetting(ShrinkSetting, args[i..r.next], atoi).GetOr(o.shrinkFactor)
    decreases |args| - i
  {
    if i < |args| && IsOption(args[i]) {
      var a := args[i];
      var o' := ApplyOption(o, a, atoi(a)).value;
      ScanSuccess(args, atoi, i + 1, o', r);
      var rest := args[i + 1..r.next];
      assert args[i..r.next] == [a] + rest;
      LastSettingCons(SkipSetting, a, rest, atoi);
      LastSettingCons(ShrinkSetting, a, rest, atoi);
    } else {
      assert args[i..r.next] == [];
    }
  }

  /** Conversely, when every option before a positional argument is accepted, the scan stops there. */
  lemma {:induction false} ScanReachesPositional(args: seq<string>, atoi: string -> int, i: nat, o: Options, n: nat)
    requires i <= n <= |args| && AllAccepted(args, atoi, i, n)
    requires n < |args| ==> !IsOption(args[n])
    ensures ScanOptions(args, atoi, i, o).Success?
    ensures ScanOptions(args, atoi, i, o).value.next == n
    decreases n - i
  {
    if i < n {
      ScanReachesPositional(args, atoi, i + 1, ApplyOption(o, args[i], atoi(args[i])).value, n);
    }
  }

  /** Argument `k` is the first rejected option, with only accepted options before it. */
  predicate FirstInvalid(args: seq<string>, atoi: string -> int, i: nat, k: nat)
    requires i <= k < |args|
  {
    AllAccepted(args, atoi, i, k) && IsOption(args[k]) && !Accepted(args[k], atoi(args[k]))
  }

  /** A failed scan names the first rejected option. */
  lemma {:induction false} ScanFailure(args: seq<string>, atoi: string -> int, i: nat, o: Options, e: Error)
    requires i <= |args| && ScanOptions(args, atoi, i, o) == Failure(e)
    ensures exists k :: i <= k < |args| && FirstInvalid(args, atoi, i, k) && e == InvalidParameter(args[k])
    decreases |args| - i
  {
    var a := args[i];
    match ApplyOption(o, a, atoi(a))
    case Failure(_) =>
      assert FirstInvalid(args, atoi, i, i);
    case Success(o') =>
      ScanFailure(args, atoi, i + 1, o', e);
      var k :| i + 1 <= k < |args| && FirstInvalid(args, atoi, i + 1, k) && e == InvalidParameter(args[k]);
      assert FirstInvalid(args, atoi, i, k);
  }

  /** Conversely, the first rejected option stops the scan with its error. */
  lemma {:induction false} ScanStopsAtInvalid(args: seq<string>, atoi: string -> int, i: nat, o: Options, k: nat)
    requires i <= k < |args| && FirstInvalid(args, atoi, i, k)
    ensures ScanOptions(args, atoi, i, o) == Failure(InvalidParameter(args[k]))
    decreases k - i
  {
    if i < k {
      ScanStopsAtInvalid(args, atoi, i + 1, ApplyOption(o, args[i], atoi(args[i])).value, k);
    }
  }

  /** Whatever the arguments, the scan keeps the options valid: skip >= 0, shrink factor in [0, 15]. */
  lemma {:induction false} ScanKeepsValid(args: seq<string>, atoi: string -> int, i: nat, o: Options)
    requires i <= |args| && ValidOptions(o)
    ensures ScanOptions(args, atoi, i, o).Success? ==> ValidOptions(ScanOptions(args, atoi, i, o).value.options)
    decreases |args| - i
  {
    if i < |args| && IsOption(args[i]) {
      var step := ApplyOption(o, args[i], atoi(args[i]));
      if step.Success? {
        ScanKeepsValid(args, atoi, i + 1, step.value);
      }
    }
  }

  // ---------------------------------------------------------------------
  // Output name and input size.

  /** The names of one run and the options that govern it. */
  datatype Job = Job(options: Options, inputName: string, outputName: string)

  /** src/zx0.c:88-102: one positional argument gets the format's extension appended; two give the output name. */
  function ParseCommandLine(args: seq<string>, atoi: string -> int): (r: Result<Job, Error>)
    ensures r.Success? ==> ValidOptions(r.value.options)
  {
    match ScanOptions(args, atoi, 0, Defaults())
    case Failure(e) => Failure(e)
    case Success(Scan(o, i)) =>
      ScanKeepsValid(args, atoi, 0, Defaults());
      if |args| == i + 1 then Success(Job(o, args[i], args[i] + Extension.Ext(o.extended)))
      else if |args| == i + 2 then Success(Job(o, args[i], args[i + 1]))
      else Failure(Usage)
  }

  /**
   * The names follow from the argument list itself: if the options before
   * index `n` are all accepted and `n` is the first positional index (or the
   * end), one positional argument gets the extension of the format chosen by
   * `-x` appended, two give input and output name, and any other count is a
   * usage error.
   */
  lemma OutputNameByPositionalCount(args: seq<string>, atoi: string -> int, n: nat)
    requires n <= |args| && AllAccepted(args, atoi, 0, n)
    requires n < |args| ==> !IsOption(args[n])
    ensures var r := ParseCommandLine(args, atoi);
      && (|args| == n + 1 ==>
            r.Success? && r.value.inputName == args[n]
            && r.value.outputName == args[n] + Extension.Ext("-x" in args[..n]))
      && (|args| == n + 2 ==>
            r.Success? && r.value.inputName == args[n] && r.value.outputName == args[n + 1])
      && (|args| != n + 1 && |args| != n + 2 ==> r == Failure(Usage))
  {
    ScanReachesPositional(args, atoi, 0, Defaults(), n);
    ScanSuccess(args, atoi, 0, Defaults(), ScanOptions(args, atoi, 0, Defaults()).value);
    assert args[0..n] == args[..n];
  }

  /** The extension-mismatch warning of src/zx0.c:161-162 fires for this job. */
  predicate Warns(job: Job) {
    Extension.MatchExtension(job.outputName, !job.options.extended)
  }

  /** With a single positional argument the derived output name never draws the warning. */
  lemma DerivedOutputNeverWarns(args: seq<string>, atoi: string -> int, sc: Scan)
    requires ScanOptions(args, atoi, 0, Defaults()) == Success(sc)
    requires sc.next + 1 == |args|
    ensures ParseCommandLine(args, atoi).Success?
    ensures !Warns(ParseCommandLine(args, atoi).value)
  {
  }

  /** src/zx0.c:114-123: an empty input is rejected, then a skip that covers the whole input. */
  function CheckInputSize(job: Job, inputSize: int): (r: Result<Job, Error>)
    ensures r.Success? ==> r.value == job && inputSize != 0 && job.options.skip < inputSize
    ensures r.Failure? ==> r.error == EmptyInput || r.error == SkipsEntireInput
  {
    if inputSize == 0 then Failure(EmptyInput)
    else if job.options.skip >= inputSize then Failure(SkipsEntireInput)
    else Success(job)
  }

  /** Everything `main` decides before reading the input, given the input file's size. */
  function Prepare(args: seq<string>, atoi: string -> int, inputSize: int): (r: Result<Job, Error>)
    ensures r.Success? ==> r == ParseCommandLine(args, atoi)
    ensures ParseCommandLine(args, atoi).Failure? ==> r == ParseCommandLine(args, atoi)
  {
    match ParseCommandLine(args, atoi)
    case Failure(e) => Failure(e)
    case Success(job) => CheckInputSize(job, inputSize)
  }

  /** Every run that reaches compression has 0 <= skip < input size and a shrink factor in [0, 15]. */
  lemma ReachesCompression(args: seq<string>, atoi: string -> int, inputSize: int)
    requires Prepare(args, atoi, inputSize).Success?
    ensures var o := Prepare(args, atoi, inputSize).value.options;
      0 <= o.skip < inputSize && 0 <= o.shrinkFactor <= 15
  {
  }

  /** Once the command line is accepted, the size checks reject exactly the empty input and a skip >= size. */
  lemma SizeChecks(args: seq<string>, atoi: string -> int, inputSize: int)
    requires ParseCommandLine(args, atoi).Success?
    ensures var job := ParseCommandLine(args, atoi).value;
      && (Prepare(args, atoi, inputSize) == Failure(EmptyInput) <==> inputSize == 0)
      && (Prepare(args, atoi, inputSize) == Failure(SkipsEntireInput) <==> inputSize != 0 && job.options.skip >= inputSize)
      && (Prepare(args, atoi, inputSize) == Success(job) <==> inputSize != 0 && job.options.skip < inputSize)
  {
  }

  // ---------------------------------------------------------------------
  // Backwards mode (src/zx0.c:164-173).

  /**
   * Reverses the input in backwards mode, hands it to the compressor and
   * reverses what comes back.  `compress` stands for the call
   * `compress(optimize(...), ...)`, whose source is not part of this model.
   */
  method CompressFile(input: array<bv8>, backwards: bool, compress: seq<bv8> -> seq<bv8>) returns (output: array<bv8>)
    modifies input
    ensures fresh(output)
    ensures input[..] == if backwards then Reverse.Reversed(old(input[..])) else old(input[..])
    ensures output[..] == if backwards then Reverse.Reversed(compress(Reverse.Reversed(old(input[..]))))
                          else compress(old(input[..]))
  {
    if backwards {
      Reverse.Reverse(input, 0, input.Length - 1);
      Reverse.ReverseWhole(old(input[..]));
    }
    var packed := compress(input[..]);
    output := new bv8[|packed|](k requires 0 <= k < |packed| => packed[k]);
    assert output[..] == packed;
    if backwards {
      Reverse.Reverse(output, 0, output.Length - 1);
      Reverse.ReverseWhole(packed);
    }
  }

  /**
   * The backwards round trip: if `decompress` undoes `compress`, then
   * reversing the stored file, decompressing it and reversing the result
   * gives back the original input.  The hypothesis is that of a compressor
   * whose output decodes to its whole input, that is the skip = 0 case: with
   * skip > 0 the payload decodes to the input after its first `skip` bytes,
   * and the driver writes no prefix.
   */
  lemma BackwardsRoundTrip(data: seq<bv8>, compress: seq<bv8> -> seq<bv8>, decompress: seq<bv8> -> seq<bv8>)
    requires forall x :: decompress(compress(x)) == x
    ensures var stored := Reverse.Reversed(compress(Reverse.Reversed(data)));
      Reverse.Reversed(decompress(Reverse.Reversed(stored))) == data
  {
    Reverse.ReversedInvolution(compress(Reverse.Reversed(data)));
    Reverse.ReversedInvolution(data);
  }
}
