/**
 * The `Flags` object: its constructor takes `sys.argv`, and `Parse` runs the
 * scan over the arguments and the final presence checks, filling in
 * `input`, `output` and `source` as it goes.
 */
module Flags {
  import opened Wrappers
  import opened FlagSpec

  class Flags {
    var input: Option<string>
    var output: Option<string>
    var source: seq<string>
    const args: seq<string>

    /** The attributes before the scan; `args` is `sys.argv[1:]`. */
    constructor (argv: seq<string>)
      ensures args == if |argv| == 0 then [] else argv[1..]
      ensures input == None && output == None && source == []
    {
      input := None;
      output := None;
      source := [];
      args := if |argv| == 0 then [] else argv[1..];
    }

    /** The argument loop and the three presence checks of `Flags.__init__`. */
    method Parse(isDir: string -> bool) returns (r: Result<(), FlagError>)
      requires input == None && output == None && source == []
      modifies this
      ensures r.Ok? <==> ParseArgs(args, isDir).Ok?
      ensures r.Err? ==> r.error == ParseArgs(args, isDir).error
      ensures r.Ok? ==>
        input == Some(ParseArgs(args, isDir).value.input) &&
        output == Some(ParseArgs(args, isDir).value.output) &&
        source == ParseArgs(args, isDir).value.source
    {
      var index := 0;
      while index < |args|
        invariant 0 <= index <= |args|
        invariant ScanFrom(args, isDir, index, ScanState(input, output, source)) == ScanFrom(args, isDir, 0, Initial)
      {
        ghost var before := ScanState(input, output, source);
        FlagsDistinct();
        var arg := args[index];
        if arg == InputFlag {
          if index + 1 >= |args| {
            return Err(MissingValue);
          }
          if EndsWith(args[index + 1], WavSuffix) {
            input := Some(args[index + 1]);
          } else {
            return Err(InputNotWav);
          }
        }
        if arg == OutputFlag {
          if index + 1 >= |args| {
            return Err(MissingValue);
          }
          if isDir(args[index + 1]) {
            output := Some(args[index + 1]);
          } else {
            return Err(OutputNotDirectory);
          }
        }
        if arg == SourceFlag {
          ghost var start := source;
          var j := index + 1;
          while j < |args|
            invariant index + 1 <= j <= |args|
            invariant input == before.input && output == before.output
            invariant AppendInstruments(args[index + 1..], start) == AppendInstruments(args[j..], source)
          {
            assert args[j..][1..] == args[j + 1..];
            if args[j] in Instruments {
              source := source + [args[j]];
            } else {
              return Err(UnknownInstrument);
            }
            j := j + 1;
          }
          assert args[j..] == [];
        }
        assert Step(args, isDir, index, before) == Ok(ScanState(input, output, source));
        index := index + 1;
      }
      if input == None {
        return Err(NoInput);
      }
      if output == None {
        return Err(NoOutput);
      }
      if source == [] {
        return Err(NoSource);
      }
      return Ok(());
    }
  }
}
