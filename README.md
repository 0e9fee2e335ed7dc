# rbwchain in Dafny

rbwchain runs a command with secrets taken from an `rbw` note. By default it
reads the note as `KEY=VALUE` lines and hands the pairs to the child command as
environment variables. With `-f NAME` it writes the whole note to a temporary
file instead and hands over one variable, `NAME`, holding the file's path.
When the child ends, the wrapper exits with the child's exit code, or with
128 plus the signal number when a signal killed the child.

The model covers the logic of `src/main.rs` that sits between the I/O calls:

- `text.dfy` (`Text`): the pieces of Rust's `str` that the parser uses, over
  strings as sequences of Unicode scalar values. These are
  `char::is_whitespace`, `trim`, `split_once` and `lines`.
- `env_parse.dfy` (`EnvParse`): `parse_env_vars`.
  - The method `ParseEnvVars` keeps the source's loop, which inserts into a map.
  - It is proved equal to `ParsedVars`, a left fold over the per-line verdicts
    given by `ClassifyLine`.
  - The lemmas say which lines are skipped, which keys occur, that the last
    line wins, and what a padded `KEY=VALUE` line yields. Other lemmas say how
    `lines` treats "\r\n" endings and an unterminated last line.
- `environment.dfy` (`Environment`): the construction, in `main`, of the
  variables the wrapper sets on the child.
  - It inserts the wrapper variables and, when debug is on, the debug marker.
  - File mode checks the variable name and adds the path entry.
  - Default mode overlays the parsed pairs (`InsertAll`) and computes the two
    counts of the debug line.
- `exit_status.dfy` (`ExitStatus`): `handle_exit_status`, as a function from
  how the child ended to the wrapper's exit code.
- `run.dfy` (`Run`): one whole run of `main`. The I/O results it depends on are
  inputs: `rbw` was found, what `rbw get` returned, what staging the temporary
  file gave, and how the child ran.

The build-time constant `CARGO_PKG_VERSION` is the parameter `version`.

## Model

| member | source | states |
|---|---|---|
| Text.IsWhitespaceListed | src/main.rs:101 | the whitespace that `trim` removes (`char::is_whitespace`) is exactly the 25 characters with the Unicode White_Space property: U+0009 to U+000D, space, U+0085, U+00A0, U+1680, U+2000 to U+200A, U+2028, U+2029, U+202F, U+205F and U+3000 |
| Text.TrimStart | src/main.rs:101 | `trim_start` returns a suffix of its argument |
| Text.TrimStartSpec | src/main.rs:101 | every character `trim_start` drops is whitespace, and what it keeps does not start with whitespace |
| Text.TrimEnd | src/main.rs:101 | `trim_end` returns a prefix of its argument |
| Text.TrimEndSpec | src/main.rs:101 | every character `trim_end` drops is whitespace, and what it keeps does not end with whitespace |
| Text.TrimStartKeeps | src/main.rs:101 | `trim_start` never drops a character that is not whitespace |
| Text.TrimEndKeeps | src/main.rs:101 | `trim_end` never drops a character that is not whitespace |
| Text.Trim | src/main.rs:101 | `trim` returns a prefix of what `trim_start` returns |
| Text.TrimSpec | src/main.rs:101-102 | the trimmed line has no whitespace at either end, and it is empty exactly when the line is all whitespace |
| Text.TrimStripCr | src/main.rs:99-101 | `trim` gives the same whether or not one carriage return at the end of the line was cut off first |
| Text.TrimPadded | src/main.rs:101-110 | trimming a string padded with whitespace on both sides gives back the string, so `trim` removes exactly the surrounding whitespace |
| Text.Find | src/main.rs:107 | finds no position exactly when the character does not occur; otherwise returns the first position holding it |
| Text.SplitOnce | src/main.rs:107 | `split_once('=')` fails exactly when there is no `=`; otherwise the line is `before + "=" + after` and `before` holds no `=` (the split is at the first one) |
| Text.Lines | src/main.rs:99 | no line returned by `lines` holds a line feed |
| Text.LinesUnlines | src/main.rs:99 | lines without line feeds and not ending in a carriage return, each written with "\n" after it, are read back by `lines` unchanged |
| Text.UnlinesLines | src/main.rs:99 | text without carriage returns that ends in "\n" (or is empty) is its lines, each followed by "\n" |
| Text.LinesUnterminatedLast | src/main.rs:99 | the last line needs no "\n": text whose final line is unterminated still yields that line, and a carriage return at its very end is kept |
| Text.LinesUnlinesStripCr | src/main.rs:99 | lines without line feeds, each written with "\n" after it, are read back by `lines` in order, each without one carriage return at its end |
| Text.LinesCrLf | src/main.rs:99 | a line ended by "\r\n" is read without the carriage return, and reading goes on after the line feed |
| EnvParse.ClassifyLine | src/main.rs:101-113 | a line that yields a pair has a non-empty key and holds an `=` |
| EnvParse.ClassifyLineSkips | src/main.rs:101-127 | a line is skipped as blank exactly when it is all whitespace, as a comment exactly when its trimmed form starts with `#`, and as invalid without `=` exactly when it is not blank, not a comment and holds no `=` |
| EnvParse.ClassifyLineEmptyKey | src/main.rs:107-119 | a line is skipped for an empty key exactly when its trimmed form starts with `=`, that is, only whitespace stands before its first `=`; with the three skips of `ClassifyLineSkips`, every verdict other than a pair is characterised in both directions |
| EnvParse.ClassifyLinePair | src/main.rs:107-113 | the key of a pair holds no `=`, and neither key nor value has whitespace at either end |
| EnvParse.AssembleKeys | src/main.rs:111-113 | a key is in the parsed map exactly when some line yields a pair with that key |
| EnvParse.AssembleLastWins | src/main.rs:99-113 | a key holds the value of the last line that yields it: the last duplicate wins |
| EnvParse.AssembleSkipsLine | src/main.rs:102-127 | removing a line that yields no pair leaves the parsed map unchanged |
| EnvParse.ParsedKeysWellFormed | src/main.rs:107-113 | every key of the parsed map is non-empty, holds no `=` and has no surrounding whitespace |
| EnvParse.PaddedPair | src/main.rs:101-113 | a line `key=value` with any whitespace around the line, the key and the value, where the key has no `=` and does not start with `#`, yields exactly `(key, value)`; the value may itself contain `=` |
| EnvParse.ParseEnvVars | src/main.rs:94-130 | the loop always returns `Ok`, and the map it builds is `ParsedVars(content)`: the fold of the line verdicts, where each pair is inserted in line order |
| EnvParse.ClassifyLineStripCr | src/main.rs:99-101 | the carriage return that `lines` cuts off before a "\n" changes no verdict, because `trim` would remove it anyway |
| EnvParse.ParseUnlines | src/main.rs:99-129 | a note written as lines without line feeds, each followed by "\n", parses as the fold of those lines' verdicts; this covers "\r\n" endings, where a line is written with its carriage return |
| EnvParse.TwoLineNote | src/main.rs:94-130 | a note of two well-formed lines `k1=v1` and `k2=v2` parses to exactly `{k1: v1, k2: v2}`, and the second value is kept when `k1 == k2` |
| Environment.WrapperKeysCount | src/main.rs:222-233 | the wrapper variables have distinct names: two of them, three with debug on |
| Environment.WrapperVars | src/main.rs:222-233 | `RBWCHAIN_VERSION` holds the version, `RBWCHAIN_SECRET_NOTE` is set, and `RBWCHAIN_DEBUG` is set exactly when debug is on |
| Environment.WrapperVarsKeys | src/main.rs:222-233 | the wrapper variables are exactly the version, the note name and, with debug on, the debug marker; the note variable holds the note name and the debug marker holds "1" |
| Environment.SaturatingSub | src/main.rs:333-335 | `saturating_sub` is `a - b` when that is not negative, and 0 otherwise |
| Environment.InjectionCounts | src/main.rs:333-336 | parsed plus standard is the map size; standard is at most the number of wrapper variables, and equal to it once the map is at least that large; below that, parsed is 0 (the subtraction saturates) |
| Environment.PrepareEnvironment | src/main.rs:219-356 | an empty `-f` name fails before staging, and staging failures are passed on; these are the only failures. File mode gives the wrapper variables plus name → path, with a guard holding the whole note. Default mode gives the wrapper variables overlaid by the parsed map, with the counts of that map |
| Environment.InsertAll | src/main.rs:328-330 | inserting every parsed pair, in any order, gives the overlay `env + pairs`, so parsed pairs win on a clash |
| Environment.DefaultModeEnvironment | src/main.rs:222-330 | in default mode the variables the wrapper sets on the child hold every parsed pair unchanged; the version and note variables are always present; each wrapper variable keeps its value unless a parsed pair has its name; among the variables the wrapper sets, `RBWCHAIN_DEBUG` is present exactly when debug is on (with "1") unless parsed |
| Environment.FileModeEnvironment | src/main.rs:239-290 | in file mode the variables the wrapper sets on the child are the wrapper variables plus the chosen name, which holds the path; the other wrapper variables keep their values, including "1" for `RBWCHAIN_DEBUG` with debug on |
| Environment.CountsMeaning | src/main.rs:333-336 | the standard count is the number of wrapper variables; the parsed count is the number of parsed names that are not wrapper variables |
| ExitStatus.ExitCode | src/main.rs:409-448 | a normal exit code is forwarded, a signal `s` gives `128 + s`, and a status with neither gives 1 |
| ExitStatus.ExitCodeRoundTrip | src/main.rs:418-421 | for a normal exit code from 0 to 128 and for a signal of at least 1, reading the wrapper's code back as an unbounded integer (above 128 means a signal) recovers how the child ended |
| ExitStatus.ExitStatusRoundTrip | src/main.rs:418-421 | the same round trip through the exit status a shell really sees, the code cut to 8 bits, holds for a normal exit from 0 to 128 and a signal from 1 to 127 |
| ExitStatus.ExitCodeDistinguishes | src/main.rs:411-430 | for normal exits with codes 0 to 128 and signals of at least 1, two ends give the same exit code exactly when they are the same end |
| Run.RunWrapper | src/main.rs:171-401 | the wrapper tries to start the child exactly when `rbw` was found, the fetch succeeded and, in file mode, the name is non-empty and staging succeeded. The variables it sets on the child are the default-mode or file-mode map. The wrapper exits with the child's translated status, and with 1 on every earlier error or a failed launch |

## Left out

- `get_secret_content_from_rbw` (src/main.rs:50-89) runs `rbw get` and decodes its output. This is subprocess I/O, so its outcome is the input `fetched`, and its messages are not modelled.
- The `which("rbw")` check (src/main.rs:173-183) is a search of the PATH. It is the input `rbwFound`.
- `clap` argument parsing (src/main.rs:133-168, 186) is left out. The note name, `-f` value and debug flag are parameters.
- Creating, writing and flushing the `NamedTempFile` (src/main.rs:260-283) is filesystem I/O. It is the input `staging`: the path, or the error message. The staged file is recorded as a value that holds the whole note.
- The guard is dropped only after the child ends (src/main.rs:237, 293, 390). This ordering is not modelled.
- Spawning the child, inheriting its standard streams and waiting for it (src/main.rs:358-382) are OS calls. Their outcome is the input `launch`.
- The command and its arguments (src/main.rs:213-216) are not modelled.
- The child also inherits the wrapper's own environment, because `Command::new` starts from it (src/main.rs:213). The map is laid over that environment (src/main.rs:359). The model covers only the variables the wrapper sets. For example, a `RBWCHAIN_DEBUG` already in the caller's environment reaches the child even without `-d`.
- The logging helpers and every message (src/main.rs:22-43) are left out. This includes the warning for a note with no valid pairs (src/main.rs:314-324) and the debug listing of keys (src/main.rs:347-355).
- The `debug_enabled` parameter of `parse_env_vars` only gates warnings, so `ParseEnvVars` has no such parameter.
- `OsString` and `to_string_lossy` conversions are left out: names and values are plain strings.
- `env!("CARGO_PKG_VERSION")` is a build-time constant that is not in the sources, so it is the parameter `version`.
- ExitStatus.ExitCode: codes are unbounded integers. The `i32` type of `128 + signal` is not modelled, and the operating system's cut of the exit status to 8 bits appears only in `ExitStatusRoundTrip`.
- Iterating a `HashMap` has no defined order (src/main.rs:328). `InsertAll` picks the next key arbitrarily, and its result does not depend on the choice.
- File mode uses the whole `-f` value as the variable name (src/main.rs:242, 290), and the temporary file gets no suffix (src/main.rs:260). A value such as `CONFIG.json` is therefore the variable name `CONFIG.json`, and no part of it becomes a file suffix.
