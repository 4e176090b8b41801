/**
 * The `os.path` functions the repository calls, as `posixpath` defines them
 * (the separator is `/`; Windows paths are not modelled).
 */
module PosixPath {
  import opened Optional
  import opened Str

  /** Python's `p.rfind('/')`: the highest index holding a `/`. */
  function RFindSlash(p: string): (r: Option<nat>)
    ensures r.Some? ==> r.value < |p| && p[r.value] == '/'
    ensures r.Some? ==> forall j :: r.value < j < |p| ==> p[j] != '/'
    ensures r.None? ==> forall j :: 0 <= j < |p| ==> p[j] != '/'
    decreases |p|
  {
    if |p| == 0 then None
    else if p[|p| - 1] == '/' then Some(|p| - 1)
    else RFindSlash(p[..|p| - 1])
  }

  predicate AllSlashes(s: string) {
    forall i :: 0 <= i < |s| ==> s[i] == '/'
  }

  predicate NoSlash(s: string) {
    forall i :: 0 <= i < |s| ==> s[i] != '/'
  }

  /** Python's `s.rstrip('/')`. */
  function RStripSlashes(s: string): (r: string)
    ensures StartsWith(s, r)
    ensures r == [] || r[|r| - 1] != '/'
    ensures forall i :: |r| <= i < |s| ==> s[i] == '/'
    decreases |s|
  {
    if |s| > 0 && s[|s| - 1] == '/' then RStripSlashes(s[..|s| - 1]) else s
  }

  /** Where the final component starts: one past the last `/`, or 0. */
  function TailStart(p: string): (i: nat)
    ensures i <= |p|
    ensures i > 0 ==> p[i - 1] == '/'
    ensures forall j :: i <= j < |p| ==> p[j] != '/'
  {
    match RFindSlash(p)
    case None => 0
    case Some(k) => k + 1
  }

  /**
   * `os.path.dirname(p)`: everything before the final component, with
   * trailing slashes removed unless the head consists of slashes only.
   */
  function Dirname(p: string): (r: string)
    ensures StartsWith(p, r)
    ensures NoSlash(p) ==> r == []
    ensures r == [] || AllSlashes(r) || r[|r| - 1] != '/'
    ensures |r| <= TailStart(p) && AllSlashes(p[|r|..TailStart(p)])
    ensures AllSlashes(p[..TailStart(p)]) ==> r == p[..TailStart(p)]
  {
    var head := p[..TailStart(p)];
    if |head| > 0 && !AllSlashes(head) then
      var r := RStripSlashes(head);
      assert p[|r|..TailStart(p)] == head[|r|..];
      r
    else head
  }

  /** `os.path.basename(p)`: the final component. */
  function Basename(p: string): (r: string)
    ensures EndsWith(p, r)
    ensures NoSlash(r)
    ensures |r| == |p| || p[|p| - |r| - 1] == '/'
  {
    p[TailStart(p)..]
  }

  /** A relative path (one not starting with `/`) has a strictly shorter, still relative dirname. */
  lemma DirnameShrinks(p: string)
    requires p != [] && p[0] != '/'
    ensures |Dirname(p)| < |p|
    ensures Dirname(p) == [] || Dirname(p)[0] != '/'
  {
    var i := TailStart(p);
    var head := p[..i];
    if |head| > 0 {
      assert !AllSlashes(head) by { assert head[0] != '/'; }
      assert head[i - 1] == '/';
    }
  }

  /** An absolute path has an absolute dirname: `dirname('/')` is `'/'` again. */
  lemma DirnameKeepsRoot(p: string)
    requires StartsWith(p, "/")
    ensures StartsWith(Dirname(p), "/")
  {
    var i := TailStart(p);
    assert i > 0 by { assert p[0] == '/'; }
    var head := p[..i];
    if !AllSlashes(head) {
      var d := RStripSlashes(head);
      var k :| 0 <= k < |head| && head[k] != '/';
      assert k < |d|;
    }
  }

  /** `os.path.join(a, b)` for two components. */
  function PathJoin(a: string, b: string): (r: string)
    ensures EndsWith(r, b)
    ensures NoSlash(b) ==> Basename(r) == b
    ensures StartsWith(b, "/") ==> r == b
    ensures !StartsWith(b, "/") ==> StartsWith(r, a) && |r| <= |a| + |b| + 1
    ensures a != [] && !EndsWith(a, "/") && !StartsWith(b, "/") ==> r == a + "/" + b
    ensures (a == [] || EndsWith(a, "/")) && !StartsWith(b, "/") ==> r == a + b
  {
    var r := if StartsWith(b, "/") then b
      else if a == [] || EndsWith(a, "/") then a + b
      else a + "/" + b;
    assert NoSlash(b) ==> Basename(r) == b by {
      if NoSlash(b) {
        assert r[|r| - |b|..] == b;
        assert |r| == |b| || r[|r| - |b| - 1] == '/';
        assert TailStart(r) == |r| - |b|;
      }
    }
    r
  }

  /**
   * The directories that marking a path as non-empty adds, starting at `d`:
   * `d`, `dirname(d)`, and so on. The walk stops at `''` as in the source, and
   * also at a directory that is its own dirname (`'/'`), which the source's
   * loop does not (see `MarkLoopAsWritten`).
   */
  function AncestorsFrom(d: string): (r: set<string>)
    ensures [] !in r
    ensures d != [] ==> d in r
    ensures forall a :: a in r ==> StartsWith(d, a)
    ensures forall a :: a in r && 0 < |Dirname(a)| < |a| ==> Dirname(a) in r
    decreases |d|
  {
    if d == [] then {}
    else
      var n := Dirname(d);
      {d} + (if |n| < |d| then AncestorsFrom(n) else {})
  }

  /** The non-empty ancestors of `p` that `mark_non_empty_dirs` records. */
  function Ancestors(p: string): (r: set<string>)
    ensures [] !in r
    ensures Dirname(p) != [] ==> Dirname(p) in r
    ensures forall a :: a in r ==> StartsWith(Dirname(p), a)
  {
    AncestorsFrom(Dirname(p))
  }

  /** `dirname` applied `n` times. */
  function DirnameIter(p: string, n: nat): string
    decreases n
  {
    if n == 0 then p else DirnameIter(Dirname(p), n - 1)
  }

  /**
   * For a relative path the marked set is exactly the non-empty results of
   * applying `dirname` once or more.
   */
  lemma AncestorsExact(p: string, a: string)
    requires p == [] || p[0] != '/'
    ensures a in Ancestors(p) <==> a != [] && exists n :: 1 <= n && DirnameIter(p, n) == a
  {
    if a in Ancestors(p) {
      AncestorsSound(p, a);
    }
    if a != [] && exists n :: 1 <= n && DirnameIter(p, n) == a {
      var n :| 1 <= n && DirnameIter(p, n) == a;
      AncestorsComplete(p, n);
    }
  }

  lemma {:induction false} AncestorsSound(p: string, a: string)
    requires p == [] || p[0] != '/'
    requires a in Ancestors(p)
    ensures exists n :: 1 <= n && DirnameIter(p, n) == a
    decreases |p|
  {
    var d := Dirname(p);
    DirnameShrinks(p);
    if a == d {
      assert DirnameIter(p, 1) == DirnameIter(d, 0) == a;
    } else {
      DirnameShrinks(d);
      assert a in Ancestors(d);
      AncestorsSound(d, a);
      var n :| 1 <= n && DirnameIter(d, n) == a;
      assert DirnameIter(p, n + 1) == a;
    }
  }

  lemma {:induction false} AncestorsComplete(p: string, n: nat)
    requires p == [] || p[0] != '/'
    requires 1 <= n && DirnameIter(p, n) != []
    ensures DirnameIter(p, n) in Ancestors(p)
    decreases n
  {
    if p == [] {
      IterEmpty(n);
    } else {
      var d := Dirname(p);
      DirnameShrinks(p);
      if n > 1 {
        assert DirnameIter(p, n) == DirnameIter(d, n - 1);
        AncestorsComplete(d, n - 1);
        DirnameShrinks(d);
      }
    }
  }

  lemma {:induction false} IterEmpty(n: nat)
    ensures DirnameIter([], n) == []
  {
    if n > 0 {
      assert Dirname([]) == [];
      IterEmpty(n - 1);
    }
  }

  /**
   * The source's marking loop exactly as written (`while dir_path:` add it,
   * then `dir_path = os.path.dirname(dir_path)`), run for at most `fuel`
   * iterations: `None` when it has not stopped by then.
   */
  function MarkLoopAsWritten(d: string, fuel: nat): Option<set<string>>
    decreases fuel
  {
    if d == [] then Some({})
    else if fuel == 0 then None
    else
      match MarkLoopAsWritten(Dirname(d), fuel - 1)
      case None => None
      case Some(s) => Some({d} + s)
  }

  /**
   * From an absolute directory the loop never stops, however many iterations
   * it is given: every dirname is absolute again and `dirname('/')` is `'/'`.
   */
  lemma {:induction false} MarkLoopDivergesOnAbsolute(d: string, fuel: nat)
    requires StartsWith(d, "/")
    ensures MarkLoopAsWritten(d, fuel) == None
    decreases fuel
  {
    if fuel > 0 {
      DirnameKeepsRoot(d);
      MarkLoopDivergesOnAbsolute(Dirname(d), fuel - 1);
    }
  }

  /** From a relative directory the loop stops and marks exactly `AncestorsFrom(d)`. */
  lemma {:induction false} MarkLoopAgreesOnRelative(d: string, fuel: nat)
    requires d == [] || d[0] != '/'
    requires fuel >= |d|
    ensures MarkLoopAsWritten(d, fuel) == Some(AncestorsFrom(d))
    decreases |d|
  {
    if d != [] {
      var n := Dirname(d);
      DirnameShrinks(d);
      MarkLoopAgreesOnRelative(n, fuel - 1);
      assert AncestorsFrom(d) == {d} + AncestorsFrom(n);
    }
  }

  /**
   * Whenever the loop as written does stop, from any directory, it has marked
   * exactly `AncestorsFrom(d)`: the correction changes only the runs that
   * never end.
   */
  lemma {:induction false} MarkLoopSound(d: string, fuel: nat)
    ensures MarkLoopAsWritten(d, fuel).Some? ==> MarkLoopAsWritten(d, fuel).value == AncestorsFrom(d)
    decreases fuel
  {
    if d != [] && fuel > 0 {
      var n := Dirname(d);
      MarkLoopSound(n, fuel - 1);
      if MarkLoopAsWritten(n, fuel - 1).Some? && |n| == |d| {
        assert n == d;
      }
    }
  }

  /** The concrete case: the root line `/tmp` of a `tree -f /tmp` listing sends the loop into `'/'` for ever. */
  lemma MarkLoopDivergesOnTmp(fuel: nat)
    ensures Dirname("/tmp") == "/"
    ensures Dirname("/") == "/"
    ensures MarkLoopAsWritten(Dirname("/tmp"), fuel) == None
    ensures Ancestors("/tmp") == {"/"}
  {
    assert "/tmp"[..3] == "/tm" && "/tm"[..2] == "/t" && "/t"[..1] == "/";
    assert RFindSlash("/tmp") == RFindSlash("/tm") == RFindSlash("/t") == RFindSlash("/") == Some(0);
    assert TailStart("/tmp") == 1;
    assert TailStart("/") == 1;
    assert AllSlashes("/");
    MarkLoopDivergesOnAbsolute("/", fuel);
  }
}
