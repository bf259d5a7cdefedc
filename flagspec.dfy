/**
 * The command line `siren` accepts: `-input <file>.wav`, `-output <directory>`
 * and `-source <instrument>...`, scanned argument by argument.  Whether a
 * path names a directory is the parameter `isDir` (`os.path.isdir`).
 */
module FlagSpec {
  import opened Wrappers

  /** The exceptions `Flags.__init__` can raise. */
  datatype FlagError =
    | InputNotWav         // TypeError: the value after -input does not end in ".wav"
    | OutputNotDirectory  // TypeError: the value after -output is not a directory
    | UnknownInstrument   // TypeError: an argument after -source is not an instrument
    | MissingValue        // IndexError: -input or -output is the last argument
    | NoInput             // TypeError: no -input was given
    | NoOutput            // TypeError: no -output was given
    | NoSource            // TypeError: no instrument was given

  const Instruments: seq<string> := ["bass", "guitar", "vocals", "drums", "synth", "brass"]
  const InputFlag: string := "-input"
  const OutputFlag: string := "-output"
  const SourceFlag: string := "-source"
  const WavSuffix: string := ".wav"

  /** The three flags are different words, so an argument is at most one of them. */
  lemma FlagsDistinct()
    ensures InputFlag != OutputFlag && InputFlag != SourceFlag && OutputFlag != SourceFlag
  {
    assert InputFlag[1] != OutputFlag[1] && InputFlag[1] != SourceFlag[1] && OutputFlag[1] != SourceFlag[1];
  }

  /** `s.endswith(suffix)`. */
  predicate EndsWith(s: string, suffix: string)
  {
    |suffix| <= |s| && s[|s| - |suffix|..] == suffix
  }

  /** `s` ends with `suffix` exactly when it is some string followed by `suffix`. */
  lemma EndsWithIsSuffix(s: string, suffix: string)
    ensures EndsWith(s, suffix) <==> exists p :: s == p + suffix
  {
    if EndsWith(s, suffix) {
      var p := s[..|s| - |suffix|];
      assert s == p + suffix;
    }
    if exists p :: s == p + suffix {
      var p :| s == p + suffix;
      assert s[|s| - |suffix|..] == suffix;
    }
  }

  /** The three attributes the scan fills in. */
  datatype ScanState = ScanState(input: Option<string>, output: Option<string>, source: seq<string>)

  const Initial := ScanState(None, None, [])

  /** The accepted command line. */
  datatype Parsed = Parsed(input: string, output: string, source: seq<string>)

  /**
   * `for instrument in self.args[index+1:]`: append every argument that is an
   * instrument, and stop with an error at the first one that is not.
   */
  function AppendInstruments(rest: seq<string>, source: seq<string>): (r: Result<seq<string>, FlagError>)
    ensures r.Err? ==> r.error == UnknownInstrument
    ensures r.Ok? ==> source <= r.value
    decreases |rest|
  {
    if |rest| == 0 then Ok(source)
    else if rest[0] in Instruments then AppendInstruments(rest[1..], source + [rest[0]])
    else Err(UnknownInstrument)
  }

  /** The three `if`s of the loop body, in order, for argument `i`. */
  function Step(args: seq<string>, isDir: string -> bool, i: nat, st: ScanState): (r: Result<ScanState, FlagError>)
    requires i < |args|
    ensures r.Err? ==> r.error in {InputNotWav, OutputNotDirectory, UnknownInstrument, MissingValue}
    ensures r.Ok? && r.value.input != st.input ==>
      args[i] == InputFlag && i + 1 < |args| && r.value.input == Some(args[i + 1])
    ensures r.Ok? && r.value.output != st.output ==>
      args[i] == OutputFlag && i + 1 < |args| && r.value.output == Some(args[i + 1])
    ensures r.Ok? ==> st.source <= r.value.source
  {
    var afterInput :-
      if args[i] != InputFlag then Ok(st)
      else if i + 1 >= |args| then Err(MissingValue)
      else if EndsWith(args[i + 1], WavSuffix) then Ok(st.(input := Some(args[i + 1])))
      else Err(InputNotWav);
    var afterOutput :-
      if args[i] != OutputFlag then Ok(afterInput)
      else if i + 1 >= |args| then Err(MissingValue)
      else if isDir(args[i + 1]) then Ok(afterInput.(output := Some(args[i + 1])))
      else Err(OutputNotDirectory);
    if args[i] != SourceFlag then Ok(afterOutput)
    else
      var source :- AppendInstruments(args[i + 1..], afterOutput.source);
      Ok(afterOutput.(source := source))
  }

  /** The loop over the arguments from index `i` on. */
  function ScanFrom(args: seq<string>, isDir: string -> bool, i: nat, st: ScanState): (r: Result<ScanState, FlagError>)
    ensures r.Err? ==> r.error in {InputNotWav, OutputNotDirectory, UnknownInstrument, MissingValue}
    ensures r.Ok? ==> st.source <= r.value.source
    ensures r.Ok? && r.value.input.Some? && st.input.None? ==> exists k :: i <= k < |args| && args[k] == InputFlag
    decreases |args| - i
  {
    if i >= |args| then Ok(st)
    else
      var next :- Step(args, isDir, i, st);
      ScanFrom(args, isDir, i + 1, next)
  }

  /** `Flags()` on `sys.argv[1:] == args`: the scan, then the three presence checks. */
  function ParseArgs(args: seq<string>, isDir: string -> bool): (r: Result<Parsed, FlagError>)
    ensures r.Ok? ==> InputFlag in args && r.value.source != []
  {
    var st :- ScanFrom(args, isDir, 0, Initial);
    if st.input.None? then Err(NoInput)
    else if st.output.None? then Err(NoOutput)
    else if st.source == [] then Err(NoSource)
    else Ok(Parsed(st.input.value, st.output.value, st.source))
  }

  /**
   * What argument `i` raises, stated on the arguments alone: a flag with no
   * value after it, a value of the wrong kind, or a non-instrument anywhere
   * after `-source`.
   */
  function IndexError(args: seq<string>, isDir: string -> bool, i: nat): (e: Option<FlagError>)
    requires i < |args|
    ensures e.Some? ==> args[i] == InputFlag || args[i] == OutputFlag || args[i] == SourceFlag
    ensures e == Some(MissingValue) <==> i + 1 == |args| && (args[i] == InputFlag || args[i] == OutputFlag)
  {
    if args[i] == InputFlag && !(i + 1 < |args| && EndsWith(args[i + 1], WavSuffix)) then
      Some(if i + 1 < |args| then InputNotWav else MissingValue)
    else if args[i] == OutputFlag && !(i + 1 < |args| && isDir(args[i + 1])) then
      Some(if i + 1 < |args| then OutputNotDirectory else MissingValue)
    else if args[i] == SourceFlag && !(forall j :: i < j < |args| ==> args[j] in Instruments) then
      Some(UnknownInstrument)
    else None
  }

  /** Every argument from index `i` on raises nothing. */
  predicate AcceptedFrom(args: seq<string>, isDir: string -> bool, i: nat)
  {
    forall k :: i <= k < |args| ==> IndexError(args, isDir, k).None?
  }

  /** `k` is the last index at or after `i` holding `flag`, and a value follows it. */
  predicate LastFlagAt(args: seq<string>, flag: string, i: nat, k: nat)
  {
    i <= k && k + 1 < |args| && args[k] == flag && forall j :: k < j < |args| ==> args[j] != flag
  }

  /** `flag` does not occur at or after index `i`. */
  predicate AbsentFrom(args: seq<string>, flag: string, i: nat)
  {
    forall j :: i <= j < |args| ==> args[j] != flag
  }
}
