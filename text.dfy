/** The few operations of Rust's `str` that the secret parser relies on:
    `char::is_whitespace`, `trim`, `split_once` and `lines`, over strings
    taken as sequences of Unicode scalar values. */
module Text {
  import opened Wrappers

  /** Rust's `char::is_whitespace`: the Unicode White_Space property. */
  predicate IsWhitespace(c: char) {
    || c == ' '
    || ('\t' <= c <= '\r')
    || c == '\U{0085}' || c == '\U{00A0}' || c == '\U{1680}'
    || ('\U{2000}' <= c <= '\U{200A}')
    || c == '\U{2028}' || c == '\U{2029}' || c == '\U{202F}'
    || c == '\U{205F}' || c == '\U{3000}'
  }

  /** The characters with the Unicode White_Space property, one by one. */
  const WhiteSpaceChars: set<char> := {
    '\t', '\n', '\U{000B}', '\U{000C}', '\r', ' ', '\U{0085}', '\U{00A0}', '\U{1680}',
    '\U{2000}', '\U{2001}', '\U{2002}', '\U{2003}', '\U{2004}', '\U{2005}',
    '\U{2006}', '\U{2007}', '\U{2008}', '\U{2009}', '\U{200A}',
    '\U{2028}', '\U{2029}', '\U{202F}', '\U{205F}', '\U{3000}'
  }

  /** `IsWhitespace` holds of exactly the 25 White_Space characters: the
      ranges in its definition cover no other character. */
  lemma IsWhitespaceListed(c: char)
    ensures IsWhitespace(c) <==> c in WhiteSpaceChars
  {
    if '\t' <= c <= '\r' {
      assert c as int in {9, 10, 11, 12, 13};
    }
    if '\U{2000}' <= c <= '\U{200A}' {
      assert c as int in {0x2000, 0x2001, 0x2002, 0x2003, 0x2004, 0x2005,
                          0x2006, 0x2007, 0x2008, 0x2009, 0x200A};
    }
  }

  predicate AllWhitespace(s: string) {
    forall i :: 0 <= i < |s| ==> IsWhitespace(s[i])
  }

  /** Neither end of `s` is whitespace: `trim` would leave it as it is. */
  predicate Trimmed(s: string) {
    s == [] || (!IsWhitespace(s[0]) && !IsWhitespace(s[|s| - 1]))
  }

  /** Whitespace glued to whitespace is whitespace. */
  lemma AllWhitespaceConcat(p: string, q: string)
    requires AllWhitespace(p) && AllWhitespace(q)
    ensures AllWhitespace(p + q)
  {
    forall j | 0 <= j < |p + q| ensures IsWhitespace((p + q)[j]) {
      if j >= |p| { assert (p + q)[j] == q[j - |p|]; }
    }
  }

  /** `str::trim_start`: a suffix of `s` (what it drops is stated by
      `TrimStartSpec`). */
  function TrimStart(s: string): (r: string)
    ensures |r| <= |s| && r == s[|s| - |r|..]
  {
    if s != [] && IsWhitespace(s[0]) then TrimStart(s[1..]) else s
  }

  /** `trim_start` drops the leading whitespace and nothing more: what it
      drops is whitespace, and what it keeps does not start with whitespace. */
  lemma {:induction false} TrimStartSpec(s: string)
    ensures forall k :: 0 <= k < |s| - |TrimStart(s)| ==> IsWhitespace(s[k])
    ensures TrimStart(s) == [] || !IsWhitespace(TrimStart(s)[0])
  {
    if s != [] && IsWhitespace(s[0]) {
      var tail := s[1..];
      assert TrimStart(s) == TrimStart(tail);
      TrimStartSpec(tail);
      forall k | 0 < k < |s| - |TrimStart(s)| ensures IsWhitespace(s[k]) {
        assert s[k] == tail[k - 1];
      }
    }
  }

  /** `str::trim_end`: a prefix of `s` (what it drops is stated by
      `TrimEndSpec`). */
  function TrimEnd(s: string): (r: string)
    ensures |r| <= |s| && r == s[..|r|]
  {
    if s != [] && IsWhitespace(s[|s| - 1]) then TrimEnd(s[..|s| - 1]) else s
  }

  /** `trim_end` drops the trailing whitespace and nothing more. */
  lemma {:induction false} TrimEndSpec(s: string)
    ensures forall k :: |TrimEnd(s)| <= k < |s| ==> IsWhitespace(s[k])
    ensures TrimEnd(s) == [] || !IsWhitespace(TrimEnd(s)[|TrimEnd(s)| - 1])
  {
    if s != [] && IsWhitespace(s[|s| - 1]) {
      var init := s[..|s| - 1];
      assert TrimEnd(s) == TrimEnd(init);
      TrimEndSpec(init);
      forall k | |TrimEnd(s)| <= k < |s| - 1 ensures IsWhitespace(s[k]) {
        assert s[k] == init[k];
      }
    }
  }

  /** `trim_start` keeps every character that is not whitespace, in place. */
  lemma {:induction false} TrimStartKeeps(s: string, j: nat)
    requires j < |s| && !IsWhitespace(s[j])
    ensures |s| - |TrimStart(s)| <= j
  {
    if s != [] && IsWhitespace(s[0]) {
      TrimStartKeeps(s[1..], j - 1);
    }
  }

  /** `trim_end` keeps every character that is not whitespace, in place. */
  lemma {:induction false} TrimEndKeeps(s: string, j: nat)
    requires j < |s| && !IsWhitespace(s[j])
    ensures j < |TrimEnd(s)|
  {
    if s != [] && IsWhitespace(s[|s| - 1]) {
      TrimEndKeeps(s[..|s| - 1], j);
    }
  }

  /** `str::trim`: `s` without its leading and trailing whitespace; a slice
      of `s` starting where `trim_start` starts. */
  function Trim(s: string): (r: string)
    ensures |r| <= |TrimStart(s)| <= |s|
    ensures r == TrimStart(s)[..|r|]
  {
    TrimEnd(TrimStart(s))
  }

  /** What `trim` promises: no whitespace is left at either end, and the
      result is empty exactly when `s` is all whitespace. */
  lemma TrimSpec(s: string)
    ensures Trimmed(Trim(s))
    ensures Trim(s) == [] <==> AllWhitespace(s)
  {
    var t := TrimStart(s);
    var r := Trim(s);
    TrimStartSpec(s);
    TrimEndSpec(t);
    var lead := |s| - |t|;
    if r != [] {
      assert r[0] == t[0] == s[lead];
    }
  }

  /** Whitespace appended at the end is kept by `trim_start` unless
      everything before it is whitespace too. */
  lemma {:induction false} TrimStartAppend(m: string, c: char)
    requires IsWhitespace(c)
    ensures TrimStart(m + [c]) == if TrimStart(m) == [] then [] else TrimStart(m) + [c]
  {
    if m == [] {
      assert TrimStart([c]) == TrimStart([]);
    } else if IsWhitespace(m[0]) {
      assert (m + [c])[1..] == m[1..] + [c];
      TrimStartAppend(m[1..], c);
    }
  }

  /** Whitespace appended at the end is dropped by `trim_end`. */
  lemma TrimEndAppend(m: string, c: char)
    requires IsWhitespace(c)
    ensures TrimEnd(m + [c]) == TrimEnd(m)
  {
    assert (m + [c])[..|m|] == m;
  }

  /** A carriage return at the end is whitespace, so `trim` removes it. */
  lemma TrimDropsTrailingCr(m: string)
    ensures Trim(m + ['\r']) == Trim(m)
  {
    TrimStartAppend(m, '\r');
    if TrimStart(m) != [] {
      TrimEndAppend(TrimStart(m), '\r');
    }
  }

  /** Whether or not `lines` cut off a carriage return, `trim` gives the same. */
  lemma TrimStripCr(line: string)
    ensures Trim(StripCr(line)) == Trim(line)
  {
    if line != [] && line[|line| - 1] == '\r' {
      assert line == StripCr(line) + ['\r'];
      TrimDropsTrailingCr(StripCr(line));
    }
  }

  lemma {:induction false} TrimStartPadded(p: string, m: string)
    requires AllWhitespace(p)
    requires m == [] || !IsWhitespace(m[0])
    ensures TrimStart(p + m) == m
  {
    if p != [] {
      assert (p + m)[1..] == p[1..] + m;
      TrimStartPadded(p[1..], m);
    } else {
      assert p + m == m;
    }
  }

  lemma {:induction false} TrimEndPadded(m: string, q: string)
    requires AllWhitespace(q)
    requires m == [] || !IsWhitespace(m[|m| - 1])
    ensures TrimEnd(m + q) == m
  {
    if q != [] {
      assert (m + q)[..|m + q| - 1] == m + q[..|q| - 1];
      TrimEndPadded(m, q[..|q| - 1]);
    } else {
      assert m + q == m;
    }
  }

  /** `trim` removes exactly the surrounding whitespace: padding a trimmed
      string with whitespace on either side and trimming gives it back. */
  lemma TrimPadded(p: string, m: string, q: string)
    requires AllWhitespace(p) && AllWhitespace(q) && Trimmed(m)
    ensures Trim(p + m + q) == m
  {
    if m == [] {
      assert p + m + q == p + q;
      AllWhitespaceConcat(p, q);
      TrimSpec(p + q);
    } else {
      assert p + m + q == p + (m + q);
      TrimStartPadded(p, m + q);
      TrimEndPadded(m, q);
    }
  }

  /** The position of the first `c` in `s`, if any. */
  function Find(s: string, c: char): (r: Option<nat>)
    ensures r.None? <==> c !in s
    ensures r.Some? ==> r.value < |s| && s[r.value] == c && c !in s[..r.value]
  {
    if s == [] then None
    else if s[0] == c then Some(0)
    else match Find(s[1..], c)
      case None => None
      case Some(i) =>
        assert s[..i + 1] == [s[0]] + s[1..][..i];
        Some(i + 1)
  }

  /** `str::split_once(c)`: the parts before and after the first `c`. */
  function SplitOnce(s: string, c: char): (r: Option<(string, string)>)
    ensures r.None? <==> c !in s
    ensures r.Some? ==> s == r.value.0 + [c] + r.value.1 && c !in r.value.0
  {
    match Find(s, c)
    case None => None
    case Some(i) =>
      assert s == s[..i] + [c] + s[i + 1..];
      Some((s[..i], s[i + 1..]))
  }

  /** Removes one carriage return in front of a line feed that was cut off. */
  function StripCr(line: string): string {
    if line != [] && line[|line| - 1] == '\r' then line[..|line| - 1] else line
  }

  /** `str::lines`: the lines of `s`, split at "\n" or "\r\n"; the line ending
      of the final line is optional, so a trailing "\n" ends the last line
      rather than starting an empty one. */
  function Lines(s: string): (ls: seq<string>)
    ensures forall i :: 0 <= i < |ls| ==> '\n' !in ls[i]
    decreases |s|
  {
    if s == [] then []
    else match Find(s, '\n')
      case None => [s]
      case Some(i) => [StripCr(s[..i])] + Lines(s[i + 1..])
  }

  /** Every line followed by its "\n": what `lines` reads back. */
  function Unlines(ls: seq<string>): string {
    if ls == [] then [] else ls[0] + "\n" + Unlines(ls[1..])
  }

  /** A line as `lines` can return it when no "\r\n" was involved. */
  predicate PlainLine(l: string) {
    '\n' !in l && (l == [] || l[|l| - 1] != '\r')
  }

  /** `Find` returns the first occurrence, so it is determined by it. */
  lemma FindFirst(s: string, c: char, i: nat)
    requires i < |s| && s[i] == c && c !in s[..i]
    ensures Find(s, c) == Some(i)
  {
    var v := Find(s, c).value;
    assert forall k :: 0 <= k < i ==> s[..i][k] == s[k];
    assert forall k :: 0 <= k < v ==> s[..v][k] == s[k];
  }

  /** `Unlines` of a line in front of others. */
  lemma UnlinesCons(l: string, ls: seq<string>)
    ensures Unlines([l] + ls) == l + "\n" + Unlines(ls)
  {
    assert ([l] + ls)[1..] == ls;
  }

  /** Lines read back from their "\n"-terminated text are the lines written. */
  lemma {:induction false} LinesUnlines(ls: seq<string>)
    requires forall i :: 0 <= i < |ls| ==> PlainLine(ls[i])
    ensures Lines(Unlines(ls)) == ls
  {
    if ls != [] {
      var l, tail := ls[0], Unlines(ls[1..]);
      var s := l + "\n" + tail;
      assert s == Unlines(ls);
      assert Lines(s) == [l] + Lines(tail) by {
        assert s[..|l|] == l && s[|l|] == '\n' && s[|l| + 1..] == tail;
        FindFirst(s, '\n', |l|);
        assert StripCr(l) == l;
      }
      LinesUnlines(ls[1..]);
      assert ls == [l] + ls[1..];
    }
  }

  /** The first line is read up to the first "\n", less one carriage
      return at its end. */
  lemma LinesCons(l: string, tail: string)
    requires '\n' !in l
    ensures Lines(l + "\n" + tail) == [StripCr(l)] + Lines(tail)
  {
    var s := l + "\n" + tail;
    assert s[..|l|] == l && s[|l|] == '\n' && s[|l| + 1..] == tail;
    FindFirst(s, '\n', |l|);
  }

  /** Each line without one carriage return at its end. */
  function StripCrs(ls: seq<string>): (r: seq<string>)
    ensures |r| == |ls|
  {
    if ls == [] then [] else [StripCr(ls[0])] + StripCrs(ls[1..])
  }

  lemma {:induction false} StripCrsIndex(ls: seq<string>, i: nat)
    requires i < |ls|
    ensures StripCrs(ls)[i] == StripCr(ls[i])
  {
    if i > 0 {
      StripCrsIndex(ls[1..], i - 1);
    }
  }

  /** Lines without line feeds, each written with "\n" after it, are read
      back by `lines` in order, each without one carriage return at its end:
      a line written as `l + "\r"` is `l` followed by "\r\n". */
  lemma {:induction false} LinesUnlinesStripCr(ls: seq<string>)
    requires forall i :: 0 <= i < |ls| ==> '\n' !in ls[i]
    ensures Lines(Unlines(ls)) == StripCrs(ls)
  {
    if ls != [] {
      var l, rest := ls[0], ls[1..];
      var tail := Unlines(rest);
      assert Unlines(ls) == l + "\n" + tail;
      LinesCons(l, tail);
      assert forall i :: 0 <= i < |rest| ==> '\n' !in rest[i] by {
        forall i | 0 <= i < |rest| ensures '\n' !in rest[i] {
          assert rest[i] == ls[i + 1];
        }
      }
      LinesUnlinesStripCr(rest);
    }
  }

  /** `s` is the part before position `i`, the element there, and the part after. */
  lemma SplitAt(s: string, i: nat)
    requires i < |s|
    ensures s == s[..i] + [s[i]] + s[i + 1..]
  {
  }

  lemma NotInSlice(s: string, c: char, lo: nat, hi: nat)
    requires lo <= hi <= |s| && c !in s
    ensures c !in s[lo..hi]
  {
    assert forall k :: 0 <= k < hi - lo ==> s[lo..hi][k] == s[lo + k];
  }

  /** Text without carriage returns whose last line is terminated is the
      concatenation of its lines, each followed by "\n". */
  lemma {:induction false} UnlinesLines(s: string)
    requires '\r' !in s
    requires s == [] || s[|s| - 1] == '\n'
    ensures Unlines(Lines(s)) == s
    decreases |s|
  {
    if s != [] {
      assert s[|s| - 1] in s;
      var i := Find(s, '\n').value;
      var line, rest := s[..i], s[i + 1..];
      assert Lines(s) == [line] + Lines(rest) by {
        SplitAt(s, i);
        LinesCons(line, rest);
        assert StripCr(line) == line by {
          NotInSlice(s, '\r', 0, i);
          assert s[0..i] == line;
        }
      }
      assert '\r' !in rest by {
        NotInSlice(s, '\r', i + 1, |s|);
        assert s[i + 1..|s|] == rest;
      }
      assert rest == [] || rest[|rest| - 1] == '\n';
      UnlinesLines(rest);
      UnlinesCons(line, Lines(rest));
      SplitAt(s, i);
    }
  }

  /** The line ending of the last line is optional: text whose last line
      has no "\n" still yields that line, and a carriage return at its end
      (with no line feed after it) is kept. */
  lemma {:induction false} LinesUnterminatedLast(ls: seq<string>, last: string)
    requires forall i :: 0 <= i < |ls| ==> PlainLine(ls[i])
    requires last != [] && '\n' !in last
    ensures Lines(Unlines(ls) + last) == ls + [last]
  {
    if ls == [] {
      assert Unlines(ls) + last == last;
    } else {
      var l, tail := ls[0], Unlines(ls[1..]) + last;
      var s := l + "\n" + tail;
      assert s == Unlines(ls) + last;
      assert Lines(s) == [l] + Lines(tail) by {
        assert s[..|l|] == l && s[|l|] == '\n' && s[|l| + 1..] == tail;
        FindFirst(s, '\n', |l|);
        assert StripCr(l) == l;
      }
      LinesUnterminatedLast(ls[1..], last);
      ConsAppend(ls, last);
    }
  }

  lemma ConsAppend<T>(xs: seq<T>, x: T)
    requires xs != []
    ensures xs + [x] == [xs[0]] + (xs[1..] + [x])
  {
    assert xs == [xs[0]] + xs[1..];
  }

  /** A line ended by "\r\n" is read without its carriage return. */
  lemma LinesCrLf(l: string, rest: string)
    requires '\n' !in l
    ensures Lines(l + "\r\n" + rest) == [l] + Lines(rest)
  {
    var s := l + "\r\n" + rest;
    var n := |l| + 1;
    assert s[..n] == l + "\r";
    assert '\n' !in s[..n];
    assert s[n] == '\n' && s[n + 1..] == rest;
    FindFirst(s, '\n', n);
    assert StripCr(l + "\r") == l;
  }
}
