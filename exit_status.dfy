/** `handle_exit_status`: the wrapper ends with an exit code derived from
    how the child command ended. */
module ExitStatus {

  /** How the child ended, as `std::process::ExitStatus` reports it on Unix:
      a normal exit with a code, death by a signal, or neither. Unix never
      reports neither for a finished child; `Indeterminate` is the defensive
      fallback for that case. */
  datatype ChildStatus = Exited(code: int) | Signaled(signal: int) | Indeterminate

  /** The code the wrapper exits with: the child's own code, 128 plus the
      signal number (the shell's convention), or 1 when neither is known. */
  function ExitCode(status: ChildStatus): (c: int)
    ensures status.Exited? ==> c == status.code
    ensures status.Signaled? ==> c - 128 == status.signal
    ensures status.Indeterminate? ==> c == 1
  {
    match status
    case Exited(code) => code
    case Signaled(signal) => 128 + signal
    case Indeterminate => 1
  }

  /** How a shell reads an exit code back: above 128 it means death by
      signal `code - 128`, otherwise a normal exit. */
  function ShellStatus(code: int): ChildStatus {
    if code > 128 then Signaled(code - 128) else Exited(code)
  }

  /** The translation loses nothing for a normal exit with a code up to 128
      or for a real signal: a shell reading the wrapper's exit code recovers
      how the child ended. */
  lemma ExitCodeRoundTrip(status: ChildStatus)
    requires status.Exited? ==> 0 <= status.code <= 128
    requires status.Signaled? ==> status.signal >= 1
    requires !status.Indeterminate?
    ensures ShellStatus(ExitCode(status)) == status
  {
  }

  /** A status a child can really end with: a normal exit code from 0 to
      128, or a signal numbered 1 or more. */
  predicate Reportable(status: ChildStatus) {
    match status
    case Exited(code) => 0 <= code <= 128
    case Signaled(signal) => signal >= 1
    case Indeterminate => false
  }

  /** The exit status a shell really sees is the exit code cut to its low
      8 bits. For a normal exit from 0 to 128 and a signal from 1 to 127 the
      round trip survives that cut; a signal of 128 or more does not, because
      `128 + signal` no longer fits in 8 bits. */
  lemma ExitStatusRoundTrip(status: ChildStatus)
    requires status.Exited? ==> 0 <= status.code <= 128
    requires status.Signaled? ==> 1 <= status.signal <= 127
    requires !status.Indeterminate?
    ensures ShellStatus(ExitCode(status) % 256) == status
  {
    ExitCodeRoundTrip(status);
    assert 0 <= ExitCode(status) < 256;
  }

  /** On reportable statuses the translation is one-to-one: two ends give
      the same exit code exactly when they are the same end. */
  lemma ExitCodeDistinguishes(a: ChildStatus, b: ChildStatus)
    requires Reportable(a) && Reportable(b)
    ensures ExitCode(a) == ExitCode(b) <==> a == b
  {
    ExitCodeRoundTrip(a);
    ExitCodeRoundTrip(b);
  }
}
