/**
 * What the argument scan accepts and what it keeps, stated on the argument
 * list alone: every argument is checked, the last `-input` and `-output`
 * win, and `-source` takes every argument after it.
 */
module FlagProperties {
  import opened Wrappers
  import opened FlagSpec

  /** `-source` keeps every following argument when all are instruments, and fails otherwise. */
  lemma {:induction false} AppendInstrumentsAll(rest: seq<string>, source: seq<string>)
    ensures AppendInstruments(rest, source).Ok? <==> forall k :: 0 <= k < |rest| ==> rest[k] in Instruments
    ensures AppendInstruments(rest, source).Ok? ==> AppendInstruments(rest, source).value == source + rest
    decreases |rest|
  {
    if |rest| > 0 && rest[0] in Instruments {
      AppendInstrumentsAll(rest[1..], source + [rest[0]]);
      assert source + [rest[0]] + rest[1..] == source + rest;
      if forall k :: 0 <= k < |rest[1..]| ==> rest[1..][k] in Instruments {
        forall k | 0 <= k < |rest|
          ensures rest[k] in Instruments
        {
          if k > 0 {
            assert rest[k] == rest[1..][k - 1];
          }
        }
      }
    }
  }

  /** One argument: it fails exactly as `IndexError` says, and otherwise updates what its flag sets. */
  lemma StepChecks(args: seq<string>, isDir: string -> bool, i: nat, st: ScanState)
    requires i < |args|
    ensures Step(args, isDir, i, st).Ok? <==> IndexError(args, isDir, i).None?
    ensures Step(args, isDir, i, st).Err? ==> IndexError(args, isDir, i) == Some(Step(args, isDir, i, st).error)
    ensures var r := Step(args, isDir, i, st);
      r.Ok? ==>
        r.value.input == (if args[i] == InputFlag then Some(args[i + 1]) else st.input) &&
        r.value.output == (if args[i] == OutputFlag then Some(args[i + 1]) else st.output) &&
        r.value.source == (if args[i] == SourceFlag then st.source + args[i + 1..] else st.source)
  {
    if args[i] == SourceFlag {
      var rest := args[i + 1..];
      AppendInstrumentsAll(rest, st.source);
      if forall k :: 0 <= k < |rest| ==> rest[k] in Instruments {
        forall j | i < j < |args|
          ensures args[j] in Instruments
        {
          assert args[j] == rest[j - i - 1];
        }
      }
    }
  }

  /**
   * The scan from index `i` succeeds exactly when no argument from `i` on
   * raises, and otherwise fails with what the first such argument raises.
   */
  lemma {:induction false} ScanChecks(args: seq<string>, isDir: string -> bool, i: nat, st: ScanState)
    ensures ScanFrom(args, isDir, i, st).Ok? <==> AcceptedFrom(args, isDir, i)
    ensures ScanFrom(args, isDir, i, st).Err? ==>
      exists k :: i <= k < |args| && IndexError(args, isDir, k) == Some(ScanFrom(args, isDir, i, st).error) &&
        forall j :: i <= j < k ==> IndexError(args, isDir, j).None?
    decreases |args| - i
  {
    if i < |args| {
      StepChecks(args, isDir, i, st);
      var r := Step(args, isDir, i, st);
      if r.Ok? {
        ScanChecks(args, isDir, i + 1, r.value);
        if ScanFrom(args, isDir, i, st).Err? {
          var k :| i + 1 <= k < |args| && IndexError(args, isDir, k) == Some(ScanFrom(args, isDir, i, st).error) &&
            forall j :: i + 1 <= j < k ==> IndexError(args, isDir, j).None?;
          assert forall j :: i <= j < k ==> IndexError(args, isDir, j).None?;
        }
      } else {
        assert !AcceptedFrom(args, isDir, i);
      }
    }
  }

  /** After a successful scan from `i`, `input` is the value after the last `-input`, or unchanged if none. */
  lemma {:induction false} ScanKeepsLastInput(args: seq<string>, isDir: string -> bool, i: nat, st: ScanState)
    requires ScanFrom(args, isDir, i, st).Ok?
    ensures AbsentFrom(args, InputFlag, i) ==> ScanFrom(args, isDir, i, st).value.input == st.input
    ensures forall k :: LastFlagAt(args, InputFlag, i, k) ==> ScanFrom(args, isDir, i, st).value.input == Some(args[k + 1])
    decreases |args| - i
  {
    if i < |args| {
      StepChecks(args, isDir, i, st);
      var next := Step(args, isDir, i, st).value;
      ScanKeepsLastInput(args, isDir, i + 1, next);
      forall k: nat | LastFlagAt(args, InputFlag, i, k)
        ensures ScanFrom(args, isDir, i, st).value.input == Some(args[k + 1])
      {
        if k > i {
          assert LastFlagAt(args, InputFlag, i + 1, k);
        } else {
          assert AbsentFrom(args, InputFlag, i + 1);
        }
      }
    }
  }

  /** After a successful scan from `i`, `output` is the value after the last `-output`, or unchanged if none. */
  lemma {:induction false} ScanKeepsLastOutput(args: seq<string>, isDir: string -> bool, i: nat, st: ScanState)
    requires ScanFrom(args, isDir, i, st).Ok?
    ensures AbsentFrom(args, OutputFlag, i) ==> ScanFrom(args, isDir, i, st).value.output == st.output
    ensures forall k :: LastFlagAt(args, OutputFlag, i, k) ==> ScanFrom(args, isDir, i, st).value.output == Some(args[k + 1])
    decreases |args| - i
  {
    if i < |args| {
      StepChecks(args, isDir, i, st);
      var next := Step(args, isDir, i, st).value;
      ScanKeepsLastOutput(args, isDir, i + 1, next);
      forall k: nat | LastFlagAt(args, OutputFlag, i, k)
        ensures ScanFrom(args, isDir, i, st).value.output == Some(args[k + 1])
      {
        if k > i {
          assert LastFlagAt(args, OutputFlag, i + 1, k);
        } else {
          assert AbsentFrom(args, OutputFlag, i + 1);
        }
      }
    }
  }

  /**
   * After a successful scan from `i`, `source` gained exactly the arguments
   * after the `-source` flag (there can be only one: a second would not be an
   * instrument), or nothing if there was none.
   */
  lemma {:induction false} ScanTakesSources(args: seq<string>, isDir: string -> bool, i: nat, st: ScanState)
    requires ScanFrom(args, isDir, i, st).Ok?
    ensures AbsentFrom(args, SourceFlag, i) ==> ScanFrom(args, isDir, i, st).value.source == st.source
    ensures forall k :: i <= k < |args| && args[k] == SourceFlag ==>
      ScanFrom(args, isDir, i, st).value.source == st.source + args[k + 1..]
    decreases |args| - i
  {
    if i < |args| {
      StepChecks(args, isDir, i, st);
      var next := Step(args, isDir, i, st).value;
      assert ScanFrom(args, isDir, i, st) == ScanFrom(args, isDir, i + 1, next);
      ScanTakesSources(args, isDir, i + 1, next);
      if args[i] == SourceFlag {
        SourceIsLast(args, isDir, i);
      }
    }
  }

  /** A `-source` that raises nothing is the last one: everything after it is an instrument. */
  lemma SourceIsLast(args: seq<string>, isDir: string -> bool, i: nat)
    requires i < |args| && args[i] == SourceFlag && IndexError(args, isDir, i).None?
    ensures AbsentFrom(args, SourceFlag, i + 1)
  {
    forall j | i + 1 <= j < |args|
      ensures args[j] != SourceFlag
    {
      assert args[j] in Instruments;
    }
  }

  /** Some `-source` is followed by at least one argument. */
  predicate HasSources(args: seq<string>)
  {
    exists k :: 0 <= k && k + 1 < |args| && args[k] == SourceFlag
  }

  /**
   * The command line is accepted exactly when no argument raises and
   * `-input`, `-output` and a `-source` with at least one instrument are all
   * present.
   */
  lemma ParseArgsAccepts(args: seq<string>, isDir: string -> bool)
    ensures ParseArgs(args, isDir).Ok? <==>
      AcceptedFrom(args, isDir, 0) && InputFlag in args && OutputFlag in args && HasSources(args)
  {
    ScanChecks(args, isDir, 0, Initial);
    if AcceptedFrom(args, isDir, 0) {
      PresenceChecks(args, isDir);
    }
  }

  /**
   * After a successful scan, each of the three final checks fails exactly
   * when its flag is missing, in the order input, output, source.
   */
  lemma PresenceChecks(args: seq<string>, isDir: string -> bool)
    requires AcceptedFrom(args, isDir, 0)
    ensures ParseArgs(args, isDir) == Err(NoInput) <==> InputFlag !in args
    ensures ParseArgs(args, isDir) == Err(NoOutput) <==> InputFlag in args && OutputFlag !in args
    ensures ParseArgs(args, isDir) == Err(NoSource) <==> InputFlag in args && OutputFlag in args && !HasSources(args)
  {
    ScanChecks(args, isDir, 0, Initial);
    ScannedInput(args, isDir);
    ScannedOutput(args, isDir);
    ScannedSources(args, isDir);
  }

  /** After an accepted scan, `input` is set iff `-input` occurs, and then to the value after its last occurrence. */
  lemma ScannedInput(args: seq<string>, isDir: string -> bool)
    requires AcceptedFrom(args, isDir, 0)
    ensures ScanFrom(args, isDir, 0, Initial).Ok?
    ensures var st := ScanFrom(args, isDir, 0, Initial).value;
      (st.input.None? <==> InputFlag !in args) &&
      (InputFlag in args ==> exists k :: LastFlagAt(args, InputFlag, 0, k) && st.input == Some(args[k + 1]))
  {
    ScanChecks(args, isDir, 0, Initial);
    FlagPresent(args, isDir, InputFlag);
    ScanKeepsLastInput(args, isDir, 0, Initial);
    if InputFlag in args {
      var k :| LastFlagAt(args, InputFlag, 0, k);
    }
  }

  /** After an accepted scan, `output` is set iff `-output` occurs, and then to the value after its last occurrence. */
  lemma ScannedOutput(args: seq<string>, isDir: string -> bool)
    requires AcceptedFrom(args, isDir, 0)
    ensures ScanFrom(args, isDir, 0, Initial).Ok?
    ensures var st := ScanFrom(args, isDir, 0, Initial).value;
      (st.output.None? <==> OutputFlag !in args) &&
      (OutputFlag in args ==> exists k :: LastFlagAt(args, OutputFlag, 0, k) && st.output == Some(args[k + 1]))
  {
    ScanChecks(args, isDir, 0, Initial);
    FlagPresent(args, isDir, OutputFlag);
    ScanKeepsLastOutput(args, isDir, 0, Initial);
    if OutputFlag in args {
      var k :| LastFlagAt(args, OutputFlag, 0, k);
    }
  }

  /**
   * After an accepted scan, the sources are non-empty iff some `-source` has
   * an argument after it, and they are everything after any `-source`.
   */
  lemma ScannedSources(args: seq<string>, isDir: string -> bool)
    requires AcceptedFrom(args, isDir, 0)
    ensures ScanFrom(args, isDir, 0, Initial).Ok?
    ensures var st := ScanFrom(args, isDir, 0, Initial).value;
      (st.source == [] <==> !HasSources(args)) &&
      (SourceFlag in args ==> exists k :: 0 <= k < |args| && args[k] == SourceFlag && st.source == args[k + 1..])
  {
    ScanChecks(args, isDir, 0, Initial);
    ScanTakesSources(args, isDir, 0, Initial);
    var st := ScanFrom(args, isDir, 0, Initial).value;
    if HasSources(args) {
      var k :| 0 <= k && k + 1 < |args| && args[k] == SourceFlag;
      assert st.source == args[k + 1..];
    } else if SourceFlag in args {
      var k :| 0 <= k < |args| && args[k] == SourceFlag;
      assert st.source == args[k + 1..];
    }
  }

  /** In an accepted argument list, a present `-input` or `-output` has a last occurrence, with a value after it. */
  lemma FlagPresent(args: seq<string>, isDir: string -> bool, flag: string)
    requires AcceptedFrom(args, isDir, 0) && (flag == InputFlag || flag == OutputFlag)
    ensures flag in args <==> exists k :: LastFlagAt(args, flag, 0, k)
    ensures flag !in args ==> AbsentFrom(args, flag, 0)
  {
    if flag in args {
      var k := |args| - 1;
      while args[k] != flag
        invariant 0 <= k < |args|
        invariant forall j :: k < j < |args| ==> args[j] != flag
        invariant exists j :: 0 <= j <= k && args[j] == flag
        decreases k
      {
        k := k - 1;
      }
      assert IndexError(args, isDir, k).None?;
      assert LastFlagAt(args, flag, 0, k);
    }
  }

  /**
   * An argument that raises makes the whole command line fail, with what
   * the first such argument raises.
   */
  lemma ParseArgsRejects(args: seq<string>, isDir: string -> bool)
    requires !AcceptedFrom(args, isDir, 0)
    ensures ParseArgs(args, isDir).Err?
    ensures exists k :: 0 <= k < |args| && IndexError(args, isDir, k) == Some(ParseArgs(args, isDir).error) &&
                        forall j :: 0 <= j < k ==> IndexError(args, isDir, j).None?
  {
    ScanChecks(args, isDir, 0, Initial);
  }

  /**
   * Where an accepted command line takes its values from: the argument after
   * the last `-input`, the argument after the last `-output`, and every
   * argument after `-source`.
   */
  lemma ParseArgsValues(args: seq<string>, isDir: string -> bool)
    requires ParseArgs(args, isDir).Ok?
    ensures var p := ParseArgs(args, isDir).value;
      (exists k :: LastFlagAt(args, InputFlag, 0, k) && p.input == args[k + 1]) &&
      (exists k :: LastFlagAt(args, OutputFlag, 0, k) && p.output == args[k + 1]) &&
      (exists k :: 0 <= k < |args| && args[k] == SourceFlag && p.source == args[k + 1..])
  {
    ScanChecks(args, isDir, 0, Initial);
    ScannedInput(args, isDir);
    ScannedOutput(args, isDir);
    ScannedSources(args, isDir);
  }

  /**
   * An accepted command line names a ".wav" input, an existing output
   * directory, and at least one source, every one an instrument.
   */
  lemma ParseArgsValid(args: seq<string>, isDir: string -> bool)
    requires ParseArgs(args, isDir).Ok?
    ensures var p := ParseArgs(args, isDir).value;
      EndsWith(p.input, WavSuffix) && isDir(p.output) && p.source != [] &&
      forall s :: s in p.source ==> s in Instruments
  {
    ScanChecks(args, isDir, 0, Initial);
    ParseArgsValues(args, isDir);
    ValuesChecked(args, isDir, ParseArgs(args, isDir).value);
  }

  /** Values taken from where `ParseArgsValues` says, in a list where no argument raises, pass the flag checks. */
  lemma ValuesChecked(args: seq<string>, isDir: string -> bool, p: Parsed)
    requires AcceptedFrom(args, isDir, 0)
    requires exists k :: LastFlagAt(args, InputFlag, 0, k) && p.input == args[k + 1]
    requires exists k :: LastFlagAt(args, OutputFlag, 0, k) && p.output == args[k + 1]
    requires exists k :: 0 <= k < |args| && args[k] == SourceFlag && p.source == args[k + 1..]
    ensures EndsWith(p.input, WavSuffix) && isDir(p.output)
    ensures forall s :: s in p.source ==> s in Instruments
  {
    var ki :| LastFlagAt(args, InputFlag, 0, ki) && p.input == args[ki + 1];
    assert IndexError(args, isDir, ki).None?;
    var ko :| LastFlagAt(args, OutputFlag, 0, ko) && p.output == args[ko + 1];
    assert IndexError(args, isDir, ko).None?;
    var ks :| 0 <= ks < |args| && args[ks] == SourceFlag && p.source == args[ks + 1..];
    assert IndexError(args, isDir, ks).None?;
    AfterAreInstruments(args, ks);
  }

  lemma AfterAreInstruments(args: seq<string>, k: nat)
    requires k < |args| && forall j :: k < j < |args| ==> args[j] in Instruments
    ensures forall s :: s in args[k + 1..] ==> s in Instruments
  {
    forall s | s in args[k + 1..]
      ensures s in Instruments
    {
      var j :| 0 <= j < |args[k + 1..]| && args[k + 1..][j] == s;
      assert s == args[k + 1 + j];
    }
  }
}
