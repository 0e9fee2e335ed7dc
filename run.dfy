/** The whole of `main` with its I/O turned into inputs: whether `rbw` is on
    the search path, what `rbw get` returned, what staging the temporary file
    gave, and how starting and waiting for the child command went. */
module Run {
  import opened Wrappers
  import opened EnvParse
  import opened Environment
  import opened ExitStatus

  /** One run of the wrapper. `childEnv` holds the variables the wrapper
      sets on the child command when it tries to start it (laid over the
      wrapper's own inherited environment), `None` when the run stopped
      before that attempt; `exitCode` is the code the wrapper exits with.
      Every error ends the run with code 1 (an `Err` returned from `main`). */
  method RunWrapper(
    rbwFound: bool, version: string, secretNote: string, debug: bool,
    fileVar: Option<string>, fetched: Result<string, string>,
    staging: Result<string, string>, launch: Result<ChildStatus, string>)
    returns (exitCode: int, childEnv: Option<map<string, string>>)
    ensures childEnv.Some? <==> rbwFound && fetched.Success? && (fileVar.Some? ==> fileVar.value != [] && staging.Success?)
    ensures childEnv.Some? && fileVar.None? ==>
      childEnv.value == WrapperVars(version, secretNote, debug) + ParsedVars(fetched.value)
    ensures childEnv.Some? && fileVar.Some? ==>
      childEnv.value == WrapperVars(version, secretNote, debug)[fileVar.value := staging.value]
    ensures exitCode == if childEnv.Some? && launch.Success? then ExitCode(launch.value) else 1
  {
    if !rbwFound {
      return 1, None;
    }
    match fetched {
      case Failure(_) =>
        return 1, None;
      case Success(secretContent) =>
        var prepared := PrepareEnvironment(version, secretNote, debug, fileVar, secretContent, staging);
        match prepared {
          case Failure(_) =>
            return 1, None;
          case Success(ready) =>
            childEnv := Some(ready.env);
            match launch {
              case Failure(_) =>
                exitCode := 1;
              case Success(status) =>
                // the program drops the temporary file's guard at this point; that ordering is not part of this model
                exitCode := ExitCode(status);
            }
        }
    }
  }
}
