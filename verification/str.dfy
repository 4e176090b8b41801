/**
 * The Python `str` methods the repository relies on, over Dafny strings
 * (sequences of Unicode scalar values, as Python 3 strings are sequences of
 * code points).
 */
module Str {
  import opened Optional

  /** The characters for which Python's `str.isspace()` holds; `strip()` and `split()` remove exactly these. */
  predicate IsSpace(c: char) {
    || ('\t' <= c <= '\r')
    || ('\U{1C}' <= c <= ' ')
    || c == '\U{85}' || c == '\U{A0}' || c == '\U{1680}'
    || ('\U{2000}' <= c <= '\U{200A}')
    || c == '\U{2028}' || c == '\U{2029}' || c == '\U{202F}' || c == '\U{205F}' || c == '\U{3000}'
  }

  /** The line boundaries recognised by Python's `str.splitlines()` (`\r\n` counts as one, see `SplitLines`). */
  predicate IsLineBreak(c: char) {
    || ('\n' <= c <= '\r')
    || ('\U{1C}' <= c <= '\U{1E}')
    || c == '\U{85}' || c == '\U{2028}' || c == '\U{2029}'
  }

  predicate StartsWith(s: string, prefix: string) {
    |prefix| <= |s| && s[..|prefix|] == prefix
  }

  predicate EndsWith(s: string, suffix: string) {
    |suffix| <= |s| && s[|s| - |suffix|..] == suffix
  }

  /** Appending to a string keeps its prefixes. */
  lemma StartsWithAppend(s: string, p: string, t: string)
    requires StartsWith(s, p)
    ensures StartsWith(s + t, p)
  {
    assert (s + t)[..|p|] == s[..|p|];
  }

  /** `sub` occurs in `s` starting at index `i`. */
  predicate OccursAt(s: string, sub: string, i: int) {
    0 <= i <= |s| - |sub| && s[i..i + |sub|] == sub
  }

  /** Python's `s.find(sub)`: the lowest index at which `sub` occurs, `None` standing for `-1`. */
  function Find(s: string, sub: string): (r: Option<nat>)
    ensures r.Some? ==> OccursAt(s, sub, r.value)
    ensures r.Some? ==> forall j :: 0 <= j < r.value ==> !OccursAt(s, sub, j)
    ensures r.None? ==> forall j :: !OccursAt(s, sub, j)
    decreases |s|
  {
    if StartsWith(s, sub) then Some(0)
    else if |s| == 0 then None
    else
      var rest := Find(s[1..], sub);
      assert forall j {:trigger OccursAt(s, sub, j)} :: 1 <= j ==> (OccursAt(s, sub, j) <==> OccursAt(s[1..], sub, j - 1)) by {
        forall j | 1 <= j ensures OccursAt(s, sub, j) <==> OccursAt(s[1..], sub, j - 1) {
          OccursShift(s, sub, j);
        }
      }
      match rest
      case None => None
      case Some(i) => Some(i + 1)
  }

  lemma OccursShift(s: string, sub: string, j: int)
    requires |s| > 0 && 1 <= j
    ensures OccursAt(s, sub, j) <==> OccursAt(s[1..], sub, j - 1)
  {
    if j <= |s| - |sub| {
      var a, b := s[j..j + |sub|], s[1..][j - 1..j - 1 + |sub|];
      forall k | 0 <= k < |sub| ensures a[k] == b[k] {
        assert s[1..][j - 1 + k] == s[j + k];
      }
      assert a == b;
    }
  }

  /** `i` is where `sub` first occurs in `s`. */
  predicate FirstOccurrence(s: string, sub: string, i: int) {
    OccursAt(s, sub, i) && forall j :: 0 <= j < i ==> !OccursAt(s, sub, j)
  }

  /** `Find` answers with the first occurrence and with nothing else. */
  lemma FindIsFirst(s: string, sub: string, i: int)
    ensures Find(s, sub) == Some(i) <==> i >= 0 && FirstOccurrence(s, sub, i)
  {
    if i >= 0 && FirstOccurrence(s, sub, i) {
      assert Find(s, sub).Some?;
    }
  }

  /** Python's `sub in s`. */
  predicate Contains(s: string, sub: string) {
    Find(s, sub).Some?
  }

  lemma ContainsIff(s: string, sub: string)
    ensures Contains(s, sub) <==> exists j :: OccursAt(s, sub, j)
  {
  }

  /** Python's `s.replace(pat, repl, 1)`: only the first occurrence of `pat` is replaced. */
  function ReplaceFirst(s: string, pat: string, repl: string): (r: string)
    ensures (forall j :: !OccursAt(s, pat, j)) ==> r == s
    ensures forall i :: FirstOccurrence(s, pat, i) ==> r == s[..i] + repl + s[i + |pat|..]
  {
    forall i | FirstOccurrence(s, pat, i) ensures Find(s, pat) == Some(i) {
      FindIsFirst(s, pat, i);
    }
    match Find(s, pat)
    case None => s
    case Some(i) => s[..i] + repl + s[i + |pat|..]
  }

  /** Replacing with a boundary-free string adds no line boundary. */
  lemma ReplaceFirstNoLineBreak(s: string, pat: string, repl: string)
    requires NoLineBreak(s) && NoLineBreak(repl)
    ensures NoLineBreak(ReplaceFirst(s, pat, repl))
  {
    match Find(s, pat)
    case None =>
    case Some(i) =>
      var a, b := s[..i], s[i + |pat|..];
      forall k | 0 <= k < |a| ensures !IsLineBreak(a[k]) {
        assert a[k] == s[k];
      }
      forall k | 0 <= k < |b| ensures !IsLineBreak(b[k]) {
        assert b[k] == s[i + |pat| + k];
      }
      var r := a + repl + b;
      forall k | 0 <= k < |r| ensures !IsLineBreak(r[k]) {
        if k < |a| {
          assert r[k] == a[k];
        } else if k < |a| + |repl| {
          assert r[k] == repl[k - |a|];
        } else {
          assert r[k] == b[k - |a| - |repl|];
        }
      }
  }

  /** Python's `s.lstrip()`. */
  function LStrip(s: string): (r: string)
    ensures EndsWith(s, r)
    ensures r == [] || !IsSpace(r[0])
    ensures forall i :: 0 <= i < |s| - |r| ==> IsSpace(s[i])
    decreases |s|
  {
    if |s| > 0 && IsSpace(s[0]) then LStrip(s[1..]) else s
  }

  /** Python's `s.rstrip()`. */
  function RStrip(s: string): (r: string)
    ensures StartsWith(s, r)
    ensures r == [] || !IsSpace(r[|r| - 1])
    ensures forall i :: |r| <= i < |s| ==> IsSpace(s[i])
    decreases |s|
  {
    if |s| > 0 && IsSpace(s[|s| - 1]) then RStrip(s[..|s| - 1]) else s
  }

  /** Python's `s.strip()`: the slice of `s` between its leading and its trailing whitespace. */
  function Strip(s: string): (r: string)
    ensures r == [] || (!IsSpace(r[0]) && !IsSpace(r[|r| - 1]))
    ensures |r| <= |s|
    ensures (forall i :: 0 <= i < |s| ==> IsSpace(s[i])) <==> r == []
    ensures var i := |s| - |LStrip(s)|;
      && i + |r| <= |s| && r == s[i..i + |r|]
      && (forall j :: 0 <= j < i ==> IsSpace(s[j]))
      && (forall j :: i + |r| <= j < |s| ==> IsSpace(s[j]))
  {
    var l := LStrip(s);
    var r := RStrip(l);
    StripFacts(s, l, r);
    r
  }

  /**
   * What `lstrip` then `rstrip` leave: given the two steps' own guarantees,
   * a slice of `s` that whitespace bounds on both sides.
   */
  lemma StripFacts(s: string, l: string, r: string)
    requires EndsWith(s, l) && (l == [] || !IsSpace(l[0]))
    requires forall i :: 0 <= i < |s| - |l| ==> IsSpace(s[i])
    requires StartsWith(l, r) && (r == [] || !IsSpace(r[|r| - 1]))
    requires forall i :: |r| <= i < |l| ==> IsSpace(l[i])
    ensures r == [] || (!IsSpace(r[0]) && !IsSpace(r[|r| - 1]))
    ensures |r| <= |s|
    ensures (forall i :: 0 <= i < |s| ==> IsSpace(s[i])) <==> r == []
    ensures var i := |s| - |l|;
      && i + |r| <= |s| && r == s[i..i + |r|]
      && (forall j :: i + |r| <= j < |s| ==> IsSpace(s[j]))
  {
    var i := |s| - |l|;
    assert l == s[i..];
    assert r == s[i..][..|r|];
    forall j | i + |r| <= j < |s| ensures IsSpace(s[j]) {
      assert s[j] == l[j - i];
    }
    if r != [] {
      assert r[0] == l[0] == s[i];
    }
  }

  /**
   * The last item of Python's `s.split()` for an `s` that is already stripped:
   * the longest whitespace-free suffix.
   */
  function LastWord(s: string): (r: string)
    ensures EndsWith(s, r)
    ensures forall i :: 0 <= i < |r| ==> !IsSpace(r[i])
    ensures |r| == |s| || IsSpace(s[|s| - |r| - 1])
    decreases |s|
  {
    if |s| == 0 || IsSpace(s[|s| - 1]) then []
    else
      var w := LastWord(s[..|s| - 1]);
      LastWordStep(s, w);
      w + [s[|s| - 1]]
  }

  /** The word ending before the last character, extended by that non-space character, is the last word of `s`. */
  lemma LastWordStep(s: string, w: string)
    requires |s| > 0 && !IsSpace(s[|s| - 1])
    requires EndsWith(s[..|s| - 1], w)
    requires forall i :: 0 <= i < |w| ==> !IsSpace(w[i])
    requires |w| == |s| - 1 || IsSpace(s[..|s| - 1][|s| - 1 - |w| - 1])
    ensures var r := w + [s[|s| - 1]];
      && EndsWith(s, r)
      && (forall i :: 0 <= i < |r| ==> !IsSpace(r[i]))
      && (|r| == |s| || IsSpace(s[|s| - |r| - 1]))
  {
    var t := s[..|s| - 1];
    var v := w + [s[|s| - 1]];
    forall k | 0 <= k < |v| ensures s[|s| - |v| + k] == v[k] {
      if k < |w| {
        assert w[k] == t[|t| - |w| + k];
      }
    }
    assert s[|s| - |v|..] == v;
    if |v| < |s| {
      assert s[|s| - |v| - 1] == t[|t| - |w| - 1];
    }
  }

  predicate NoLineBreak(s: string) {
    forall i :: 0 <= i < |s| ==> !IsLineBreak(s[i])
  }

  /** The index of the first line boundary in `s`, or `|s|` when there is none. */
  function BreakAt(s: string): (i: nat)
    ensures i <= |s|
    ensures i < |s| ==> IsLineBreak(s[i])
    ensures forall j :: 0 <= j < i ==> !IsLineBreak(s[j])
    decreases |s|
  {
    if |s| == 0 || IsLineBreak(s[0]) then 0 else 1 + BreakAt(s[1..])
  }

  /**
   * Python's `s.splitlines()`: the pieces between line boundaries, with `\r\n`
   * one boundary and no empty piece after a final boundary.
   */
  function SplitLines(s: string): (r: seq<string>)
    ensures forall k :: 0 <= k < |r| ==> NoLineBreak(r[k])
    ensures r == [] <==> s == []
    decreases |s|
  {
    if |s| == 0 then []
    else
      var i := BreakAt(s);
      if i == |s| then [s]
      else
        var next := if s[i] == '\r' && i + 1 < |s| && s[i + 1] == '\n' then i + 2 else i + 1;
        [s[..i]] + SplitLines(s[next..])
  }

  /** Python's `'\n'.join(lines)`. */
  function JoinLines(lines: seq<string>): (r: string)
    ensures |lines| == 0 ==> r == []
    ensures |lines| > 0 ==> StartsWith(r, lines[0]) && EndsWith(r, lines[|lines| - 1])
    decreases |lines|
  {
    if |lines| == 0 then []
    else if |lines| == 1 then lines[0]
    else lines[0] + "\n" + JoinLines(lines[1..])
  }

  /**
   * Splitting a join gives the lines back when none of them holds a line
   * boundary and the last one is not empty (Python drops an empty last line).
   */
  lemma {:induction false} SplitJoinRoundTrip(lines: seq<string>)
    requires forall k :: 0 <= k < |lines| ==> NoLineBreak(lines[k])
    requires |lines| > 0 ==> lines[|lines| - 1] != []
    ensures SplitLines(JoinLines(lines)) == lines
    decreases |lines|
  {
    if |lines| == 1 {
      assert BreakAt(lines[0]) == |lines[0]|;
    } else if |lines| > 1 {
      SplitLinesCons(lines[0], JoinLines(lines[1..]));
      SplitJoinRoundTrip(lines[1..]);
      assert lines == [lines[0]] + lines[1..];
    }
  }

  /**
   * Joining what `splitlines` cut gives the text back when every line
   * boundary in it is `\n` and it does not end with one.
   */
  lemma {:induction false} JoinSplitRoundTrip(s: string)
    requires forall i :: 0 <= i < |s| && IsLineBreak(s[i]) ==> s[i] == '\n'
    requires s == [] || s[|s| - 1] != '\n'
    ensures JoinLines(SplitLines(s)) == s
    decreases |s|
  {
    if s != [] {
      var i := BreakAt(s);
      if i < |s| {
        var line, rest := s[..i], s[i + 1..];
        assert s == line + "\n" + rest;
        assert NoLineBreak(line);
        SplitLinesCons(line, rest);
        JoinSplitRoundTrip(rest);
        JoinLinesCons(line, SplitLines(rest));
      }
    }
  }

  /** Joining a first line onto at least one more puts a `\n` between them. */
  lemma JoinLinesCons(line: string, tail: seq<string>)
    requires tail != []
    ensures JoinLines([line] + tail) == line + "\n" + JoinLines(tail)
  {
    assert ([line] + tail)[1..] == tail;
  }

  /** A boundary-free first line followed by `\n` splits off as the first piece. */
  lemma SplitLinesCons(l0: string, rest: string)
    requires NoLineBreak(l0) && rest != []
    ensures SplitLines(l0 + "\n" + rest) == [l0] + SplitLines(rest)
  {
    var s := l0 + "\n" + rest;
    assert s[|l0|] == '\n';
    assert forall j :: 0 <= j < |l0| ==> s[j] == l0[j];
    assert BreakAt(s) == |l0|;
    assert s[..|l0|] == l0;
    assert s[|l0| + 1..] == rest;
  }

  /**
   * Stripping keeps a prefix that starts and ends with non-whitespace, such
   * as the `./` a listing path begins with.
   */
  lemma StripKeepsPrefix(s: string, p: string)
    requires StartsWith(s, p) && p != []
    requires !IsSpace(p[0]) && !IsSpace(p[|p| - 1])
    ensures StartsWith(Strip(s), p)
  {
    assert LStrip(s) == s;
    var r := RStrip(s);
    assert |r| >= |p|;
    assert r[..|p|] == s[..|p|];
  }
}
