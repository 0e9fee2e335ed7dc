/** The environment `main` hands to the child command: the wrapper's own
    variables, then either the parsed `KEY=VALUE` pairs (the default mode) or
    one variable holding the path of a temporary file that contains the whole
    note (file mode, `-f NAME`). */
module Environment {
  import opened Wrappers
  import opened EnvParse

  const VersionVar: string := "RBWCHAIN_VERSION"
  const NoteVar: string := "RBWCHAIN_SECRET_NOTE"
  const DebugVar: string := "RBWCHAIN_DEBUG"

  /** Why building the child's variables fails. */
  datatype WrapperError =
    | EmptyFileVarName               // `-f ""`
    | TempFileFailed(message: string) // creating, writing or flushing the temporary file failed

  /** The temporary file of file mode, kept alive until the child has ended. */
  datatype StagedFile = StagedFile(path: string, contents: string)

  /** The two numbers of the debug line "Injecting n variable(s) (p parsed + s standard)". */
  datatype Counts = Counts(parsed: nat, standard: nat)

  /** What is ready once the environment is built: the variables, the guard
      of the temporary file (file mode only) and the counts (default mode only). */
  datatype Prepared = Prepared(env: map<string, string>, guard: Option<StagedFile>, counts: Option<Counts>)

  /** The names of the wrapper's own variables. */
  function WrapperKeys(debug: bool): set<string> {
    {VersionVar, NoteVar} + (if debug then {DebugVar} else {})
  }

  /** There are two wrapper variables, three with debug on: their names differ. */
  lemma WrapperKeysCount(debug: bool)
    ensures |WrapperKeys(debug)| == 2 + if debug then 1 else 0
  {
    assert VersionVar[9] != NoteVar[9] && VersionVar[9] != DebugVar[9] && NoteVar[9] != DebugVar[9];
  }

  /** The wrapper's own variables, inserted before anything else. */
  function WrapperVars(version: string, secretNote: string, debug: bool): (m: map<string, string>)
    ensures VersionVar in m && m[VersionVar] == version
    ensures NoteVar in m
    ensures DebugVar in m <==> debug
  {
    var m := map[VersionVar := version, NoteVar := secretNote];
    if debug then m[DebugVar := "1"] else m
  }

  /** The wrapper variables are named by `WrapperKeys`, and each holds its
      value: the version, the note, and "1" for debug. */
  lemma WrapperVarsKeys(version: string, secretNote: string, debug: bool)
    ensures WrapperVars(version, secretNote, debug).Keys == WrapperKeys(debug)
    ensures WrapperVars(version, secretNote, debug)[NoteVar] == secretNote
    ensures debug ==> WrapperVars(version, secretNote, debug)[DebugVar] == "1"
  {
    assert NoteVar != DebugVar by { assert NoteVar[9] != DebugVar[9]; }
  }

  /** `usize::saturating_sub`: `a - b`, or 0 where that would be negative. */
  function SaturatingSub(a: nat, b: nat): (r: nat)
    ensures r <= a
    ensures a >= b ==> r + b == a
    ensures a < b ==> r == 0
  {
    if a >= b then a - b else 0
  }

  /** The counts of the debug line, from the size of the final map: the
      wrapper variables are taken to be 2, or 3 with debug on, and the rest
      are reported as parsed. */
  function InjectionCounts(total: nat, debug: bool): (c: Counts)
    ensures c.parsed + c.standard == total
    ensures c.standard <= 2 + if debug then 1 else 0
    ensures total >= 2 + (if debug then 1 else 0) ==> c.standard == 2 + if debug then 1 else 0
    ensures total < 2 + (if debug then 1 else 0) ==> c.parsed == 0
  {
    var parsedCount := SaturatingSub(total, 2 + if debug then 1 else 0);
    Counts(parsedCount, total - parsedCount)
  }

  /** The environment assembly of `main`, stripped of its I/O. `staging` is
      what creating, writing and flushing the temporary file gave: its path,
      or the error message. In file mode an empty name is rejected before the
      temporary file is touched, so the result then does not depend on
      `staging`. */
  method PrepareEnvironment(
    version: string, secretNote: string, debug: bool, fileVar: Option<string>,
    secretContent: string, staging: Result<string, string>)
    returns (r: Result<Prepared, WrapperError>)
    ensures fileVar == Some([]) ==> r == Failure(EmptyFileVarName)
    ensures fileVar.Some? && fileVar.value != [] && staging.Failure? ==> r == Failure(TempFileFailed(staging.error))
    ensures r.Failure? <==> fileVar.Some? && (fileVar.value == [] || staging.Failure?)
    ensures r.Success? && fileVar.Some? ==>
      r.value == Prepared(WrapperVars(version, secretNote, debug)[fileVar.value := staging.value],
                          Some(StagedFile(staging.value, secretContent)), None)
    ensures r.Success? && fileVar.None? ==>
      var env := WrapperVars(version, secretNote, debug) + ParsedVars(secretContent);
      r.value == Prepared(env, None, Some(InjectionCounts(|env|, debug)))
  {
    var finalEnv: map<string, string> := map[];
    finalEnv := finalEnv[VersionVar := version];
    finalEnv := finalEnv[NoteVar := secretNote];
    if debug {
      finalEnv := finalEnv[DebugVar := "1"];
    }
    assert finalEnv == WrapperVars(version, secretNote, debug);
    var guard: Option<StagedFile> := None;
    var counts: Option<Counts> := None;

    match fileVar {
      case Some(name) =>
        // file mode
        if name == [] {
          return Failure(EmptyFileVarName);
        }
        match staging {
          case Failure(e) =>
            return Failure(TempFileFailed(e));
          case Success(path) =>
            finalEnv := finalEnv[name := path];
            guard := Some(StagedFile(path, secretContent));
        }
      case None =>
        // default mode: parsed pairs are inserted last, so they win on a clash
        var parsed := ParseEnvVars(secretContent);
        finalEnv := InsertAll(finalEnv, parsed.value);
        var parsedCount := SaturatingSub(|finalEnv|, 2 + if debug then 1 else 0);
        var defaultCount := |finalEnv| - parsedCount;
        counts := Some(Counts(parsedCount, defaultCount));
    }
    return Success(Prepared(finalEnv, guard, counts));
  }

  /** The overlay loop of the default mode: every parsed pair is inserted
      into the environment map, visiting the pairs in no particular order,
      and each insert overwrites what the map held under its key. */
  method InsertAll(env: map<string, string>, pairs: map<string, string>) returns (merged: map<string, string>)
    ensures merged == env + pairs
  {
    merged := env;
    var pending := pairs.Keys;
    while pending != {}
      invariant pending <= pairs.Keys
      invariant merged == env + (map k | k in pairs.Keys - pending :: pairs[k])
      decreases pending
    {
      var key :| key in pending;
      merged := merged[key := pairs[key]];
      pending := pending - {key};
    }
    assert (map k | k in pairs.Keys - {} :: pairs[k]) == pairs;
  }

  /** In the default mode every parsed pair reaches the child as it was
      parsed, and a wrapper variable keeps its own value unless a parsed pair
      has its name: the version is always set, the note name is set, and the
      debug marker "1" is set exactly when debug is on (short of a clash). */
  lemma {:induction false} DefaultModeEnvironment(version: string, secretNote: string, debug: bool, parsed: map<string, string>)
    ensures var env := WrapperVars(version, secretNote, debug) + parsed;
      && env.Keys == WrapperKeys(debug) + parsed.Keys
      && (forall k :: k in parsed ==> env[k] == parsed[k])
      && VersionVar in env && NoteVar in env
      && (NoteVar !in parsed ==> env[NoteVar] == secretNote)
      && (VersionVar !in parsed ==> env[VersionVar] == version)
      && (DebugVar !in parsed ==> (DebugVar in env <==> debug) && (debug ==> env[DebugVar] == "1"))
  {
    WrapperVarsKeys(version, secretNote, debug);
  }

  /** In file mode the child sees the wrapper variables plus exactly one more
      entry, the chosen name bound to the temporary file's path. */
  lemma {:induction false} FileModeEnvironment(version: string, secretNote: string, debug: bool, name: string, path: string)
    ensures var env := WrapperVars(version, secretNote, debug)[name := path];
      && env.Keys == WrapperKeys(debug) + {name}
      && env[name] == path
      && (name != NoteVar ==> env[NoteVar] == secretNote)
      && (name != VersionVar ==> env[VersionVar] == version)
      && (name != DebugVar ==> (DebugVar in env <==> debug))
      && (name != DebugVar && debug ==> env[DebugVar] == "1")
  {
    WrapperVarsKeys(version, secretNote, debug);
  }

  /** What the counts mean: the "standard" count is the number of wrapper
      variables, and the "parsed" count is the number of parsed pairs whose
      name is not a wrapper variable, so a parsed pair that replaces a
      wrapper variable is not counted as parsed. */
  lemma {:induction false} CountsMeaning(version: string, secretNote: string, debug: bool, parsed: map<string, string>)
    ensures var env := WrapperVars(version, secretNote, debug) + parsed;
      InjectionCounts(|env|, debug) == Counts(|parsed.Keys - WrapperKeys(debug)|, |WrapperKeys(debug)|)
  {
    var w := WrapperKeys(debug);
    var env := WrapperVars(version, secretNote, debug) + parsed;
    var extra := parsed.Keys - w;
    assert env.Keys == w + extra by {
      WrapperVarsKeys(version, secretNote, debug);
    }
    assert |env| == |w| + |extra| by {
      assert w * extra == {};
      assert |env| == |env.Keys|;
    }
    WrapperKeysCount(debug);
  }
}
