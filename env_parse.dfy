/** `parse_env_vars`: the secret note's text read as `KEY=VALUE` lines. */
module EnvParse {
  import opened Wrappers
  import opened Text

  /** What one line of the note contributes. Each kind other than `Pair` is a
      line the parser skips: blank, a `#` comment, a line without `=`, or a
      line whose key is empty once trimmed. */
  datatype LineKind = Blank | Comment | NoEquals | EmptyKey | Pair(key: string, value: string)

  /** The decision the loop body of `parse_env_vars` takes for one line. */
  function ClassifyLine(line: string): (k: LineKind)
    ensures k.Pair? ==> k.key != [] && '=' in line
  {
    var t := Trim(line);
    if t == [] then Blank
    else if t[0] == '#' then Comment
    else match SplitOnce(t, '=')
      case None => NoEquals
      case Some((before, after)) =>
        var key := Trim(before);
        assert '=' in line by {
          assert t[|before|] == '=';
          assert t == line[|line| - |TrimStart(line)|..][..|t|];
        }
        if key == [] then EmptyKey else Pair(key, Trim(after))
  }

  /** The key of a pair has no `=` and, like the value, no surrounding
      whitespace. */
  lemma ClassifyLinePair(line: string)
    requires ClassifyLine(line).Pair?
    ensures '=' !in ClassifyLine(line).key
    ensures Trimmed(ClassifyLine(line).key) && Trimmed(ClassifyLine(line).value)
  {
    var t := Trim(line);
    assert t != [] && t[0] != '#' && SplitOnce(t, '=').Some?;
    var before := SplitOnce(t, '=').value.0;
    var after := SplitOnce(t, '=').value.1;
    assert ClassifyLine(line) == Pair(Trim(before), Trim(after));
    SplitPartsTrimmed(t);
  }

  /** The trimmed halves of a split at the first `=`: the key part holds no
      `=`, and neither part has whitespace at either end. */
  lemma SplitPartsTrimmed(t: string)
    requires SplitOnce(t, '=').Some?
    ensures '=' !in Trim(SplitOnce(t, '=').value.0)
    ensures Trimmed(Trim(SplitOnce(t, '=').value.0)) && Trimmed(Trim(SplitOnce(t, '=').value.1))
  {
    var before := SplitOnce(t, '=').value.0;
    var after := SplitOnce(t, '=').value.1;
    TrimIsSlice(before);
    TrimSpec(before);
    TrimSpec(after);
  }

  /** Which lines are skipped: a blank line (only whitespace), a line whose
      first non-blank character is `#`, and a line without `=`; a line that
      yields a pair has an `=` in it. */
  lemma ClassifyLineSkips(line: string)
    ensures ClassifyLine(line) == Blank <==> AllWhitespace(line)
    ensures ClassifyLine(line) == Comment <==> Trim(line) != [] && Trim(line)[0] == '#'
    ensures ClassifyLine(line) == NoEquals <==> Trim(line) != [] && Trim(line)[0] != '#' && '=' !in line
  {
    var t := Trim(line);
    TrimSpec(line);
    TrimIsSlice(line);
    if '=' in line {
      // '=' is not whitespace, so trimming never removes one
      var j :| 0 <= j < |line| && line[j] == '=';
      TrimKeepsNonWhitespace(line, j);
    }
  }

  /** The fourth skip: a line is dropped for an empty key exactly when its
      trimmed form starts with `=`, so nothing but whitespace stands before
      the first `=`. */
  lemma ClassifyLineEmptyKey(line: string)
    ensures ClassifyLine(line) == EmptyKey <==> Trim(line) != [] && Trim(line)[0] == '='
  {
    var t := Trim(line);
    TrimSpec(line);
    if t != [] && t[0] != '#' && '=' in t {
      var before := SplitOnce(t, '=').value.0;
      TrimSpec(before);
      if before != [] {
        assert before[0] == t[0];
      }
      if t[0] == '=' {
        FindFirst(t, '=', 0);
      }
    }
  }

  /** `trim` returns a slice of its argument, so it adds no character. */
  lemma TrimIsSlice(s: string)
    ensures forall c :: c in Trim(s) ==> c in s
  {
    var t := TrimStart(s);
    forall c | c in Trim(s) ensures c in s {
      var j :| 0 <= j < |Trim(s)| && Trim(s)[j] == c;
      assert t[j] == s[|s| - |t| + j];
    }
  }

  /** `trim` removes whitespace only, so it keeps every other character. */
  lemma TrimKeepsNonWhitespace(s: string, j: nat)
    requires j < |s| && !IsWhitespace(s[j])
    ensures s[j] in Trim(s)
  {
    var t := TrimStart(s);
    var lead := |s| - |t|;
    TrimStartKeeps(s, j);
    assert t[j - lead] == s[j];
    TrimEndKeeps(t, j - lead);
    assert Trim(s)[j - lead] == s[j];
  }

  /** The verdict on each line, in order. */
  function ClassifyLines(ls: seq<string>): (kinds: seq<LineKind>)
    ensures |kinds| == |ls|
    ensures forall i :: 0 <= i < |ls| ==> kinds[i] == ClassifyLine(ls[i])
  {
    seq(|ls|, i requires 0 <= i < |ls| => ClassifyLine(ls[i]))
  }

  /** This verdict sets `key`. */
  predicate DefinesKey(kind: LineKind, key: string) {
    kind.Pair? && kind.key == key
  }

  /** One turn of the loop: a valid line inserts its pair, any other line
      leaves the map alone. */
  function Step(m: map<string, string>, kind: LineKind): map<string, string> {
    match kind
    case Pair(k, v) => m[k := v]
    case _ => m
  }

  /** The map the loop has built after lines with verdicts `kinds`: each
      valid line inserts its pair, so a later line with the same key
      replaces the value of an earlier one. */
  function Assemble(kinds: seq<LineKind>): map<string, string> {
    if kinds == [] then map[] else Step(Assemble(kinds[..|kinds| - 1]), kinds[|kinds| - 1])
  }

  lemma AssemblePrefix(kinds: seq<LineKind>, n: nat)
    requires n < |kinds|
    ensures Assemble(kinds[..n + 1]) == Step(Assemble(kinds[..n]), kinds[n])
  {
    assert kinds[..n + 1][..n] == kinds[..n];
  }

  /** What `parse_env_vars` returns for `content`. */
  function ParsedVars(content: string): map<string, string> {
    Assemble(ClassifyLines(Lines(content)))
  }

  /** A key is in the map exactly when some valid line defines it. */
  lemma {:induction false} AssembleKeys(kinds: seq<LineKind>, key: string)
    ensures key in Assemble(kinds) <==> exists i :: 0 <= i < |kinds| && DefinesKey(kinds[i], key)
  {
    if kinds != [] {
      var init := kinds[..|kinds| - 1];
      AssembleKeys(init, key);
      if exists i :: 0 <= i < |init| && DefinesKey(init[i], key) {
        var i :| 0 <= i < |init| && DefinesKey(init[i], key);
        assert kinds[i] == init[i];
      }
      if exists i :: 0 <= i < |kinds| && DefinesKey(kinds[i], key) {
        var i :| 0 <= i < |kinds| && DefinesKey(kinds[i], key);
        if i < |init| { assert init[i] == kinds[i]; }
      }
    }
  }

  /** Last write wins: the value a key ends with is the one on the last valid
      line that defines it. */
  lemma {:induction false} AssembleLastWins(kinds: seq<LineKind>, i: nat, key: string, value: string)
    requires i < |kinds| && kinds[i] == Pair(key, value)
    requires forall j :: i < j < |kinds| ==> !DefinesKey(kinds[j], key)
    ensures key in Assemble(kinds) && Assemble(kinds)[key] == value
  {
    var init := kinds[..|kinds| - 1];
    if i < |kinds| - 1 {
      forall j | i < j < |init| ensures !DefinesKey(init[j], key) {
        assert init[j] == kinds[j];
      }
      AssembleLastWins(init, i, key, value);
      assert !DefinesKey(kinds[|kinds| - 1], key);
    }
  }

  /** A line that is skipped contributes nothing: removing it from the note
      leaves the parsed map as it was. */
  lemma {:induction false} AssembleSkipsLine(kinds: seq<LineKind>, i: nat)
    requires i < |kinds| && !kinds[i].Pair?
    ensures Assemble(kinds[..i] + kinds[i + 1..]) == Assemble(kinds)
  {
    var init := kinds[..|kinds| - 1];
    if i == |kinds| - 1 {
      assert kinds[..i] + kinds[i + 1..] == init;
    } else {
      AssembleSkipsLine(init, i);
      var shorter := init[..i] + init[i + 1..];
      assert kinds[..i] + kinds[i + 1..] == shorter + [kinds[|kinds| - 1]];
      assert (shorter + [kinds[|kinds| - 1]])[..|shorter|] == shorter;
    }
  }

  /** Every key `parse_env_vars` returns is non-empty, free of `=` and has no
      surrounding whitespace. */
  lemma ParsedKeysWellFormed(content: string, key: string)
    requires key in ParsedVars(content)
    ensures key != [] && '=' !in key && Trimmed(key)
  {
    var kinds := ClassifyLines(Lines(content));
    AssembleKeys(kinds, key);
    var i :| 0 <= i < |kinds| && DefinesKey(kinds[i], key);
    ClassifyLinePair(Lines(content)[i]);
  }

  /** The trimmed form of a padded `KEY=VALUE` line runs from the first
      character of the key to the last character of the value (or to the
      `=` when the value is empty). */
  lemma PaddedLineTrim(p1: string, key: string, p2: string, p3: string, value: string, p4: string)
    requires AllWhitespace(p1) && AllWhitespace(p2) && AllWhitespace(p3) && AllWhitespace(p4)
    requires key != [] && Trimmed(key) && Trimmed(value)
    ensures Trim(p1 + key + p2 + "=" + p3 + value + p4)
         == key + p2 + "=" + (if value == [] then [] else p3 + value)
  {
    var line := p1 + key + p2 + "=" + p3 + value + p4;
    var core := key + p2 + "=" + (if value == [] then [] else p3 + value);
    var tail := if value == [] then p3 + p4 else p4;
    assert line == p1 + core + tail by {
      if value == [] {
        assert line == p1 + (key + p2 + "=") + (p3 + p4);
      } else {
        assert line == p1 + (key + p2 + "=" + (p3 + value)) + p4;
      }
    }
    assert AllWhitespace(tail) by {
      if value == [] { AllWhitespaceConcat(p3, p4); }
    }
    assert Trimmed(core) by {
      assert core[0] == key[0];
      if value == [] {
        assert core[|core| - 1] == '=' && !IsWhitespace('=');
      } else {
        assert core[|core| - 1] == value[|value| - 1];
      }
    }
    TrimPadded(p1, core, tail);
  }

  /** The first `=` after a key without `=` and some whitespace is the one
      that separates key and value. */
  lemma SplitAfterKey(key: string, p2: string, after: string)
    requires AllWhitespace(p2) && '=' !in key
    ensures SplitOnce(key + p2 + "=" + after, '=') == Some((key + p2, after))
  {
    var before := key + p2;
    var core := before + "=" + after;
    assert '=' !in before by {
      forall j | 0 <= j < |before| ensures before[j] != '=' {
        if j >= |key| { assert before[j] == p2[j - |key|]; }
      }
    }
    assert core[..|before|] == before && core[|before|] == '=' && core[|before| + 1..] == after;
    FindFirst(core, '=', |before|);
  }

  /** `ClassifyLine` unfolded for a line that yields a pair. */
  lemma ClassifyAsPair(line: string, before: string, after: string)
    requires Trim(line) != [] && Trim(line)[0] != '#'
    requires SplitOnce(Trim(line), '=') == Some((before, after)) && Trim(before) != []
    ensures ClassifyLine(line) == Pair(Trim(before), Trim(after))
  {
  }

  /** A well-formed line: whatever whitespace surrounds the line, the key and
      the value, the line yields exactly the key and the value. The value may
      itself contain `=`, since the split is at the first one. */
  lemma PaddedPair(p1: string, key: string, p2: string, p3: string, value: string, p4: string)
    requires AllWhitespace(p1) && AllWhitespace(p2) && AllWhitespace(p3) && AllWhitespace(p4)
    requires key != [] && Trimmed(key) && '=' !in key && key[0] != '#'
    requires Trimmed(value)
    ensures ClassifyLine(p1 + key + p2 + "=" + p3 + value + p4) == Pair(key, value)
  {
    var line := p1 + key + p2 + "=" + p3 + value + p4;
    var after := if value == [] then [] else p3 + value;
    var core := key + p2 + "=" + after;
    assert Trim(line) == core by {
      PaddedLineTrim(p1, key, p2, p3, value, p4);
    }
    assert core[0] == key[0];
    assert SplitOnce(core, '=') == Some((key + p2, after)) by {
      SplitAfterKey(key, p2, after);
    }
    assert Trim(key + p2) == key by {
      TrimPadded([], key, p2);
      assert [] + key + p2 == key + p2;
    }
    assert Trim(after) == value by {
      TrimPadded(p3, value, []);
      if value != [] { assert p3 + value + [] == after; }
    }
    ClassifyAsPair(line, key + p2, after);
  }

  /** `parse_env_vars`: walks the lines of `content` and inserts every valid
      pair into the map. Malformed lines are skipped, never an error, so the
      result is always `Ok`. */
  method ParseEnvVars(content: string) returns (r: Result<map<string, string>, string>)
    ensures r.Success?
    ensures r.value == ParsedVars(content)
  {
    var envVars: map<string, string> := map[];
    var lines := Lines(content);
    ghost var kinds := ClassifyLines(lines);
    for n := 0 to |lines|
      invariant envVars == Assemble(kinds[..n])
    {
      var kind := ClassifyLine(lines[n]);
      assert kind == kinds[n];
      AssemblePrefix(kinds, n);
      match kind
      case Pair(key, value) =>
        envVars := envVars[key := value];
      case _ =>
        // blank, comment, no '=' or empty key: skipped (a warning in debug mode)
    }
    assert kinds[..|lines|] == kinds;
    return Success(envVars);
  }

  /** A carriage return that `lines` cuts off changes no verdict: `trim`
      would remove it anyway. */
  lemma ClassifyLineStripCr(line: string)
    ensures ClassifyLine(StripCr(line)) == ClassifyLine(line)
  {
    TrimStripCr(line);
  }

  /** A note written as the lines `ls`, each ended by "\n" (or by "\r\n",
      when the line is written with its carriage return), parses as `ls`. */
  lemma ParseUnlines(ls: seq<string>)
    requires forall i :: 0 <= i < |ls| ==> '\n' !in ls[i]
    ensures ParsedVars(Unlines(ls)) == Assemble(ClassifyLines(ls))
  {
    var lines := StripCrs(ls);
    LinesUnlinesStripCr(ls);
    forall i | 0 <= i < |ls| ensures ClassifyLines(lines)[i] == ClassifyLines(ls)[i] {
      StripCrsIndex(ls, i);
      ClassifyLineStripCr(ls[i]);
    }
    assert ClassifyLines(lines) == ClassifyLines(ls);
  }

  /** A key that a `KEY=VALUE` line can carry and get back unchanged. */
  predicate WellFormedKey(key: string) {
    key != [] && Trimmed(key) && '=' !in key && '\n' !in key && key[0] != '#'
  }

  /** A value that a `KEY=VALUE` line can carry and get back unchanged. */
  predicate WellFormedValue(value: string) {
    Trimmed(value) && '\n' !in value
  }

  /** A note of two `KEY=VALUE` lines, such as "DB_USER=alice\nDB_PASS=s3cret\n",
      yields exactly those variables; when both lines carry the same key, the
      second value is the one kept. */
  lemma TwoLineNote(k1: string, v1: string, k2: string, v2: string)
    requires WellFormedKey(k1) && WellFormedValue(v1)
    requires WellFormedKey(k2) && WellFormedValue(v2)
    ensures ParsedVars(k1 + "=" + v1 + "\n" + k2 + "=" + v2 + "\n") == map[k1 := v1, k2 := v2]
  {
    var l1, l2 := k1 + "=" + v1, k2 + "=" + v2;
    assert Unlines([l1, l2]) == k1 + "=" + v1 + "\n" + k2 + "=" + v2 + "\n" by {
      assert [l1, l2][1..] == [l2];
      assert Unlines([l2]) == l2 + "\n";
    }
    WellFormedLine(k1, v1);
    WellFormedLine(k2, v2);
    ParseUnlines([l1, l2]);
    WellFormedPair(k1, v1);
    WellFormedPair(k2, v2);
    TwoPairs(l1, l2);
  }

  /** Two lines that both yield pairs build the map of those pairs. */
  lemma TwoPairs(l1: string, l2: string)
    requires ClassifyLine(l1).Pair? && ClassifyLine(l2).Pair?
    ensures Assemble(ClassifyLines([l1, l2]))
         == map[ClassifyLine(l1).key := ClassifyLine(l1).value, ClassifyLine(l2).key := ClassifyLine(l2).value]
  {
    ClassifyTwo(l1, l2);
    AssembleTwo(ClassifyLine(l1), ClassifyLine(l2));
  }

  lemma ClassifyTwo(l1: string, l2: string)
    ensures ClassifyLines([l1, l2]) == [ClassifyLine(l1), ClassifyLine(l2)]
  {
  }

  lemma AssembleTwo(a: LineKind, b: LineKind)
    requires a.Pair? && b.Pair?
    ensures Assemble([a, b]) == map[a.key := a.value, b.key := b.value]
  {
    assert [a, b][..1] == [a] && [a][..0] == [];
    assert Assemble([a]) == Step(map[], a);
  }

  /** A `KEY=VALUE` line with nothing around its parts yields them. */
  lemma WellFormedPair(key: string, value: string)
    requires WellFormedKey(key) && WellFormedValue(value)
    ensures ClassifyLine(key + "=" + value) == Pair(key, value)
  {
    assert [] + key + [] + "=" + [] + value + [] == key + "=" + value;
    PaddedPair([], key, [], [], value, []);
  }

  /** A `KEY=VALUE` line built from a well-formed key and value is a line as
      `lines` returns it. */
  lemma WellFormedLine(key: string, value: string)
    requires WellFormedKey(key) && WellFormedValue(value)
    ensures PlainLine(key + "=" + value)
  {
    var l := key + "=" + value;
    assert forall j :: 0 <= j < |l| ==> l[j] == (if j < |key| then key[j] else if j == |key| then '=' else value[j - |key| - 1]);
    assert l[|l| - 1] == (if value == [] then '=' else value[|value| - 1]);
  }
}
