/**
 * The few Python string operations the validator and the fixer rely on:
 * `str.strip()`, `str.startswith`, the substring test `t in s`,
 * `str.split('\n')`, `'\n'.join(...)` and `Path.name`.
 */
module Text {

  /** The characters Python's `str.isspace()` accepts (and `str.strip()` removes). */
  predicate IsSpace(c: char) {
    c == ' ' || c == '\t' || c == '\n' || c == '\r' || c == '\U{0B}' || c == '\U{0C}'
    || ('\U{1C}' <= c <= '\U{1F}') || c == '\U{85}' || c == '\U{A0}' || c == '\U{1680}'
    || ('\U{2000}' <= c <= '\U{200A}') || c == '\U{2028}' || c == '\U{2029}'
    || c == '\U{202F}' || c == '\U{205F}' || c == '\U{3000}'
  }

  /** `s.lstrip()` */
  function TrimStart(s: string): string {
    if s != [] && IsSpace(s[0]) then TrimStart(s[1..]) else s
  }

  /** `s.rstrip()` */
  function TrimEnd(s: string): string {
    if s != [] && IsSpace(s[|s| - 1]) then TrimEnd(s[..|s| - 1]) else s
  }

  /** `s.strip()` */
  function Strip(s: string): string {
    TrimEnd(TrimStart(s))
  }

  /** `s.lstrip()` drops a whitespace prefix and keeps the rest, which does not start with whitespace. */
  lemma {:induction false} TrimStartFacts(s: string)
    ensures var r := TrimStart(s);
      && |r| <= |s| && r == s[|s| - |r|..]
      && (forall i :: 0 <= i < |s| - |r| ==> IsSpace(s[i]))
      && (r == [] || !IsSpace(r[0]))
  {
    if s != [] && IsSpace(s[0]) {
      var tail := s[1..];
      TrimStartFacts(tail);
      var r := TrimStart(tail);
      assert TrimStart(s) == r;
      assert tail[|tail| - |r|..] == s[|s| - |r|..];
      forall i | 0 <= i < |s| - |r| ensures IsSpace(s[i]) {
        if i > 0 {
          assert s[i] == tail[i - 1];
        }
      }
    }
  }

  /** `s.rstrip()` drops a whitespace suffix and keeps the rest, which does not end with whitespace. */
  lemma {:induction false} TrimEndFacts(s: string)
    ensures var r := TrimEnd(s);
      && |r| <= |s| && r == s[..|r|]
      && (forall i :: |r| <= i < |s| ==> IsSpace(s[i]))
      && (r == [] || !IsSpace(r[|r| - 1]))
  {
    if s != [] && IsSpace(s[|s| - 1]) {
      TrimEndFacts(s[..|s| - 1]);
    }
  }

  /** `r` is the slice of `s` starting at `lo`, and only whitespace lies around it. */
  predicate SurroundedBySpace(s: string, r: string, lo: int) {
    && 0 <= lo && lo + |r| <= |s| && r == s[lo..lo + |r|]
    && (forall i :: 0 <= i < lo ==> IsSpace(s[i]))
    && (forall i :: lo + |r| <= i < |s| ==> IsSpace(s[i]))
  }

  /** What `s.strip()` leaves: a slice of `s` with only whitespace around it, itself not padded. */
  lemma StripFacts(s: string)
    ensures var r := Strip(s);
      && (exists lo :: SurroundedBySpace(s, r, lo))
      && (r == [] || (!IsSpace(r[0]) && !IsSpace(r[|r| - 1])))
  {
    var t := TrimStart(s);
    TrimStartFacts(s);
    TrimEndFacts(t);
    var r := TrimEnd(t);
    if r != [] {
      assert r[0] == t[0];
    }
    StripSlice(s, t, r);
    assert Strip(s) == r;
    assert SurroundedBySpace(s, r, |s| - |t|);
  }

  /** Trimming both ends of `s` in turn leaves a slice of `s` with whitespace around it. */
  lemma StripSlice(s: string, t: string, r: string)
    requires |t| <= |s| && t == s[|s| - |t|..]
    requires forall i :: 0 <= i < |s| - |t| ==> IsSpace(s[i])
    requires |r| <= |t| && r == t[..|r|]
    requires forall i :: |r| <= i < |t| ==> IsSpace(t[i])
    ensures SurroundedBySpace(s, r, |s| - |t|)
  {
    var lo := |s| - |t|;
    assert r == s[lo..lo + |r|] by {
      assert t[..|r|] == s[lo..lo + |r|];
    }
    forall i | lo + |r| <= i < |s| ensures IsSpace(s[i]) {
      assert s[i] == t[i - lo];
    }
  }

  /** `s.startswith(p)` */
  predicate StartsWith(s: string, p: string) {
    p <= s
  }

  /** `t` occurs in `s` at position `i`. */
  predicate OccursAt(s: string, t: string, i: int) {
    0 <= i && i + |t| <= |s| && s[i..i + |t|] == t
  }

  /** Python's substring test `t in s`. */
  predicate Contains(s: string, t: string) {
    exists i :: 0 <= i <= |s| - |t| && OccursAt(s, t, i)
  }

  /** Python's `s.split(sep)`: never empty, and no piece contains `sep`. */
  function Split(s: string, sep: char): (r: seq<string>)
    ensures |r| >= 1
    ensures forall k :: 0 <= k < |r| ==> sep !in r[k]
  {
    if s == [] then [""]
    else
      var rest := Split(s[1..], sep);
      if s[0] == sep then [""] + rest else [[s[0]] + rest[0]] + rest[1..]
  }

  /** The lines of a text, as `content.split('\n')` gives them. */
  function LinesOf(content: string): (lines: seq<string>)
    ensures |lines| >= 1
  {
    Split(content, '\n')
  }

  /** Python's `sep.join(lines)` for a one-character separator. */
  function Join(lines: seq<string>, sep: char): string {
    if |lines| == 0 then ""
    else if |lines| == 1 then lines[0]
    else lines[0] + [sep] + Join(lines[1..], sep)
  }

  /** `Path(p).name`: what follows the last `/`. */
  function BaseName(path: string): (r: string)
    ensures '/' !in r
  {
    var parts := Split(path, '/');
    parts[|parts| - 1]
  }

  lemma {:induction false} JoinCons(c: char, lines: seq<string>, sep: char)
    requires |lines| >= 1
    ensures Join([[c] + lines[0]] + lines[1..], sep) == [c] + Join(lines, sep)
  {
    var l := [[c] + lines[0]] + lines[1..];
    if |lines| > 1 {
      assert l[1..] == lines[1..];
    }
  }

  /** Joining the pieces of a split gives back the text: `sep.join(s.split(sep)) == s`. */
  lemma {:induction false} JoinSplit(s: string, sep: char)
    ensures Join(Split(s, sep), sep) == s
  {
    if s != [] {
      var rest := Split(s[1..], sep);
      JoinSplit(s[1..], sep);
      if s[0] == sep {
        assert ([""] + rest)[1..] == rest;
      } else {
        JoinCons(s[0], rest, sep);
      }
      assert s == [s[0]] + s[1..];
    }
  }

  lemma {:induction false} ContainsLeft(a: string, b: string, t: string)
    requires Contains(a, t)
    ensures Contains(a + b, t)
  {
    var i :| 0 <= i <= |a| - |t| && OccursAt(a, t, i);
    assert (a + b)[i..i + |t|] == a[i..i + |t|];
    assert OccursAt(a + b, t, i);
  }

  lemma {:induction false} ContainsRight(a: string, b: string, t: string)
    requires Contains(b, t)
    ensures Contains(a + b, t)
  {
    var i :| 0 <= i <= |b| - |t| && OccursAt(b, t, i);
    assert (a + b)[|a| + i..|a| + i + |t|] == b[i..i + |t|];
    assert OccursAt(a + b, t, |a| + i);
  }

  /** Every character an occurrence covers is a character of the searched text. */
  lemma OccurrenceCovers(s: string, t: string, i: int, p: int)
    requires OccursAt(s, t, i) && i <= p < i + |t|
    ensures s[p] in t
  {
    assert s[p] == s[i..i + |t|][p - i];
  }

  /** An occurrence of a separator-free text in `a + [sep] + b` lies in `a` or in `b`. */
  lemma {:induction false} ContainsAcrossSep(a: string, sep: char, b: string, t: string)
    requires sep !in t
    requires Contains(a + [sep] + b, t)
    ensures Contains(a, t) || Contains(b, t)
  {
    var s := a + [sep] + b;
    var i :| 0 <= i <= |s| - |t| && OccursAt(s, t, i);
    if i + |t| <= |a| {
      assert a[i..i + |t|] == s[i..i + |t|];
      assert OccursAt(a, t, i);
    } else if i > |a| {
      assert b[i - |a| - 1..i - |a| - 1 + |t|] == s[i..i + |t|];
      assert OccursAt(b, t, i - |a| - 1);
    } else {
      OccurrenceCovers(s, t, i, |a|);
      assert false;
    }
  }

  /** A separator-free text found in a join is found in one of the joined lines. */
  lemma {:induction false} ContainsInSomeLine(lines: seq<string>, sep: char, t: string)
    requires |lines| >= 1
    requires sep !in t
    requires Contains(Join(lines, sep), t)
    ensures exists k :: 0 <= k < |lines| && Contains(lines[k], t)
  {
    if |lines| == 1 {
      assert Contains(lines[0], t);
    } else {
      ContainsAcrossSep(lines[0], sep, Join(lines[1..], sep), t);
      if !Contains(lines[0], t) {
        ContainsInSomeLine(lines[1..], sep, t);
        var k :| 0 <= k < |lines[1..]| && Contains(lines[1..][k], t);
        assert Contains(lines[k + 1], t);
      }
    }
  }

  /** Every joined line occurs in the join. */
  lemma {:induction false} LineInJoin(lines: seq<string>, sep: char, k: nat)
    requires k < |lines|
    ensures Contains(Join(lines, sep), lines[k])
  {
    if |lines| == 1 || k == 0 {
      assert OccursAt(lines[0], lines[0], 0);
      if |lines| > 1 {
        ContainsLeft(lines[0], [sep] + Join(lines[1..], sep), lines[0]);
        assert lines[0] + [sep] + Join(lines[1..], sep) == lines[0] + ([sep] + Join(lines[1..], sep));
      }
    } else {
      LineInJoin(lines[1..], sep, k - 1);
      ContainsRight(lines[0] + [sep], Join(lines[1..], sep), lines[k]);
    }
  }

  /** The substring relation is transitive. */
  lemma {:induction false} ContainsTrans(s: string, m: string, t: string)
    requires Contains(s, m) && Contains(m, t)
    ensures Contains(s, t)
  {
    var i :| 0 <= i <= |s| - |m| && OccursAt(s, m, i);
    var j :| 0 <= j <= |m| - |t| && OccursAt(m, t, j);
    forall k | 0 <= k < |t| ensures s[i + j + k] == t[k] {
      assert t[k] == m[j..j + |t|][k] == m[j + k];
      assert m[j + k] == s[i..i + |m|][j + k];
    }
    assert s[i + j..i + j + |t|] == t;
    assert OccursAt(s, t, i + j);
  }

  /** Text without the separator splits into itself alone. */
  lemma {:induction false} SplitNoSep(a: string, sep: char)
    requires sep !in a
    ensures Split(a, sep) == [a]
  {
    if a != [] {
      SplitNoSep(a[1..], sep);
      assert [a[0]] + a[1..] == a;
    }
  }

  /** Splitting at the first separator: a separator-free head is the first piece. */
  lemma {:induction false} SplitAtSep(a: string, sep: char, b: string)
    requires sep !in a
    ensures Split(a + [sep] + b, sep) == [a] + Split(b, sep)
  {
    var s := a + [sep] + b;
    if a == [] {
      assert s[1..] == b;
    } else {
      assert s[1..] == a[1..] + [sep] + b;
      SplitAtSep(a[1..], sep, b);
      assert [a[0]] + a[1..] == a;
    }
  }

  /** Splitting a join of separator-free lines gives back the lines: `sep.join(ls).split(sep) == ls`. */
  lemma {:induction false} SplitJoin(lines: seq<string>, sep: char)
    requires |lines| >= 1
    requires forall k :: 0 <= k < |lines| ==> sep !in lines[k]
    ensures Split(Join(lines, sep), sep) == lines
  {
    if |lines| == 1 {
      SplitNoSep(lines[0], sep);
    } else {
      SplitJoin(lines[1..], sep);
      SplitAtSep(lines[0], sep, Join(lines[1..], sep));
      assert [lines[0]] + lines[1..] == lines;
    }
  }
}
