/** The path and dependency handling of the SSiPP build script:
  `cleanPath`, `objNameFromSrcName`, the make-rule parsing of
  `generateDependency` and the object closure of
  `phase2FindObjectsForLinkage`.

  The compiler run and the file system are parameters: the make rule and
  its return code are given, and so is the set of files that exist.
*/
module Build {
  import opened Wrappers
  import Utils

  // ---------------------------------------------------------------------
  // cleanPath
  // ---------------------------------------------------------------------

  /** The loop of `cleanPath` over the remaining components, after keeping
      `kept`: `.` is dropped, `..` pops the last kept component (an
      `IndexError` when there is none), anything else is kept. */
  function CleanParts(kept: seq<string>, parts: seq<string>): Result<seq<string>>
    decreases |parts|
  {
    if |parts| == 0 then Ok(kept)
    else if parts[0] == "." then CleanParts(kept, parts[1..])
    else if parts[0] == ".." then
      if |kept| == 0 then Err(IndexError) else CleanParts(kept[..|kept| - 1], parts[1..])
    else CleanParts(kept + [parts[0]], parts[1..])
  }

  /** What `cleanPath(path)` returns. */
  function CleanPathOf(path: string): Result<string> {
    var kept :- CleanParts([], Utils.Pieces(path, '/'));
    Ok(Utils.Join(kept, '/'))
  }

  /** One pass of the loop of `cleanPath`. */
  method CleanStep(kept: seq<string>, part: string) returns (r: Result<seq<string>>)
    ensures r == if part == "." then Ok(kept)
      else if part == ".." then (if |kept| == 0 then Err(IndexError) else Ok(kept[..|kept| - 1]))
      else Ok(kept + [part])
  {
    if part == "." {
      return Ok(kept);
    } else if part == ".." {
      if |kept| == 0 {
        return Err(IndexError);
      }
      return Ok(kept[..|kept| - 1]);
    }
    return Ok(kept + [part]);
  }

  /** `cleanPath(path_file)`. */
  method CleanPath(path: string) returns (r: Result<string>)
    ensures r == CleanPathOf(path)
  {
    var parts := Utils.Pieces(path, '/');
    var kept: seq<string> := [];
    var i := 0;
    while i < |parts|
      invariant 0 <= i <= |parts|
      invariant CleanParts([], parts) == CleanParts(kept, parts[i..])
    {
      assert parts[i..][0] == parts[i] && parts[i..][1..] == parts[i + 1..];
      var step := CleanStep(kept, parts[i]);
      if step.Err? {
        return Err(IndexError);
      }
      kept := step.value;
      i := i + 1;
    }
    return Ok(Utils.Join(kept, '/'));
  }

  /** The only failure of `cleanPath` is its `IndexError`. */
  lemma {:induction false} CleanPartsFailure(kept: seq<string>, parts: seq<string>)
    ensures CleanParts(kept, parts).Err? ==> CleanParts(kept, parts) == Err(IndexError)
    decreases |parts|
  {
    if |parts| > 0 {
      if parts[0] == "." {
        CleanPartsFailure(kept, parts[1..]);
      } else if parts[0] == ".." {
        if |kept| > 0 {
          CleanPartsFailure(kept[..|kept| - 1], parts[1..]);
        }
      } else {
        CleanPartsFailure(kept + [parts[0]], parts[1..]);
      }
    }
  }

  /** A component that `cleanPath` keeps: neither `.` nor `..`. */
  predicate IsKept(part: string) {
    part != "." && part != ".."
  }

  /** The kept components are the ones that are neither `.` nor `..`. */
  lemma {:induction false} CleanPartsKeep(kept: seq<string>, parts: seq<string>)
    requires forall k :: 0 <= k < |kept| ==> IsKept(kept[k])
    requires CleanParts(kept, parts).Ok?
    ensures forall k :: 0 <= k < |CleanParts(kept, parts).value| ==> IsKept(CleanParts(kept, parts).value[k])
    decreases |parts|
  {
    if |parts| > 0 {
      if parts[0] == "." {
        CleanPartsKeep(kept, parts[1..]);
      } else if parts[0] == ".." {
        CleanPartsKeep(kept[..|kept| - 1], parts[1..]);
      } else {
        CleanPartsKeep(kept + [parts[0]], parts[1..]);
      }
    }
  }

  /** Components that are all kept are kept as they are. */
  lemma {:induction false} CleanPartsOfKept(kept: seq<string>, parts: seq<string>)
    requires forall k :: 0 <= k < |parts| ==> IsKept(parts[k])
    ensures CleanParts(kept, parts) == Ok(kept + parts)
    decreases |parts|
  {
    if |parts| > 0 {
      CleanPartsOfKept(kept + [parts[0]], parts[1..]);
      assert kept + [parts[0]] + parts[1..] == kept + parts;
    } else {
      assert kept + parts == kept;
    }
  }

  /** A cleaned path has neither a `.` nor a `..` component, and cleaning
      it again changes nothing. */
  lemma CleanPathIdempotent(path: string)
    requires CleanPathOf(path).Ok?
    ensures var q := CleanPathOf(path).value;
      (forall k :: 0 <= k < |Utils.Pieces(q, '/')| ==> IsKept(Utils.Pieces(q, '/')[k]))
      && CleanPathOf(q) == Ok(q)
  {
    var parts := Utils.Pieces(path, '/');
    var kept := CleanParts([], parts).value;
    CleanPartsKeep([], parts);
    var q := Utils.Join(kept, '/');
    Utils.PiecesProperties(path, '/');
    CleanPartsSubset([], parts);
    var ps := if |kept| == 0 then [""] else kept;
    assert Utils.Join(ps, '/') == q;
    Utils.JoinPieces(ps, '/');
    CleanPartsOfKept([], ps);
    assert [] + ps == ps;
  }

  /** Every kept component is one of the original components. */
  lemma {:induction false} CleanPartsSubset(kept: seq<string>, parts: seq<string>)
    requires CleanParts(kept, parts).Ok?
    ensures forall k :: 0 <= k < |CleanParts(kept, parts).value| ==>
      CleanParts(kept, parts).value[k] in kept || CleanParts(kept, parts).value[k] in parts
    decreases |parts|
  {
    if |parts| > 0 {
      if parts[0] == "." {
        CleanPartsSubset(kept, parts[1..]);
      } else if parts[0] == ".." {
        CleanPartsSubset(kept[..|kept| - 1], parts[1..]);
      } else {
        CleanPartsSubset(kept + [parts[0]], parts[1..]);
      }
    }
  }

  /** A path whose first component is `..` makes `cleanPath` pop from an
      empty list. */
  lemma LeadingParentFails(rest: string)
    ensures CleanPathOf("../" + rest) == Err(IndexError)
    ensures CleanPathOf("..") == Err(IndexError)
  {
    var s := "../" + rest;
    assert s == ".." + ['/'] + rest;
    Utils.AroundDelimiter("..", '/', rest);
    Utils.FirstAtIs(s, '/', 2);
    Utils.PiecesUnfold(s, '/', 2);
    assert Utils.Pieces(s, '/')[0] == "..";
    assert '/' !in "..";
    assert Utils.Pieces("..", '/') == [".."];
  }

  // ---------------------------------------------------------------------
  // objNameFromSrcName
  // ---------------------------------------------------------------------

  /** `objNameFromSrcName(src_file)`: drop the last character, and one more
      when the new last one is `c`, then append `o`; an `IndexError` when
      nothing is left to look at. */
  function ObjName(src: string): Result<string> {
    var base := if |src| == 0 then src else src[..|src| - 1];
    if |base| == 0 then Err(IndexError)
    else if base[|base| - 1] == 'c' then Ok(base[..|base| - 1] + "o")
    else Ok(base + "o")
  }

  /** Sources and headers name the object of the same stem. */
  lemma ObjNameOfSource(stem: string)
    ensures ObjName(stem + ".cc") == Ok(stem + ".o")
    ensures ObjName(stem + ".c") == Ok(stem + ".o")
    ensures ObjName(stem + ".h") == Ok(stem + ".o")
  {
    var cc, c, h := stem + ".cc", stem + ".c", stem + ".h";
    assert cc[..|cc| - 1] == stem + ".c" && c[..|c| - 1] == stem + "." && h[..|h| - 1] == stem + ".";
    assert (stem + ".c")[..|stem| + 1] == stem + ".";
    assert stem + "." + "o" == stem + ".o";
  }

  // ---------------------------------------------------------------------
  // generateDependency
  // ---------------------------------------------------------------------

  /** The whitespace `str.split()` separates on. */
  predicate IsWhitespace(c: char) {
    c == ' ' || c == '\t' || c == '\n' || c == '\r' || c == '\U{0B}' || c == '\U{0C}'
  }

  /** The length of the run of non-whitespace that starts `s`. */
  function WordEnd(s: string): (e: nat)
    ensures e <= |s|
    decreases |s|
  {
    if |s| == 0 || IsWhitespace(s[0]) then 0 else 1 + WordEnd(s[1..])
  }

  /** `str.split()`: the maximal runs of non-whitespace, in order. */
  function Words(s: string): seq<string>
    decreases |s|
  {
    if |s| == 0 then []
    else if IsWhitespace(s[0]) then Words(s[1..])
    else
      var e := WordEnd(s);
      [s[..e]] + Words(s[e..])
  }

  /** The dependencies of a make rule: every word after the target except
      the line continuation `\`, cleaned. */
  function RuleDependencies(words: seq<string>): Result<set<string>>
    decreases |words|
  {
    if |words| == 0 then Ok({})
    else
      var deps :- RuleDependencies(words[..|words| - 1]);
      var w := words[|words| - 1];
      if w == "\\" then Ok(deps)
      else
        var p :- CleanPathOf(w);
        Ok(deps + {p})
  }

  /** The loop of `generateDependency` over the words after the target. */
  method CollectDependencies(words: seq<string>) returns (r: Result<set<string>>)
    ensures r == RuleDependencies(words)
  {
    var deps: set<string> := {};
    var i := 0;
    while i < |words|
      invariant 0 <= i <= |words|
      invariant RuleDependencies(words[..i]) == Ok(deps)
    {
      assert words[..i + 1][..i] == words[..i] && words[..i + 1][i] == words[i];
      if words[i] != "\\" {
        var p := CleanPath(words[i]);
        if p.Err? {
          RuleDependenciesErrPersists(words, i + 1);
          return Err(IndexError);
        }
        deps := deps + {p.value};
      }
      i := i + 1;
    }
    assert words[..i] == words;
    return Ok(deps);
  }

  /** The only failure is the `IndexError` of `cleanPath`, and a failing
      prefix makes the whole rule fail. */
  lemma {:induction false} RuleDependenciesErrPersists(words: seq<string>, i: nat)
    requires i <= |words| && RuleDependencies(words[..i]).Err?
    ensures RuleDependencies(words) == Err(IndexError)
    decreases |words| - i
  {
    if i < |words| {
      var w := words[..i + 1];
      assert w[..|w| - 1] == words[..i];
      RuleDependenciesErrPersists(words, i + 1);
    } else {
      assert words[..i] == words;
      RuleDependenciesFailure(words);
    }
  }

  lemma {:induction false} RuleDependenciesFailure(words: seq<string>)
    ensures RuleDependencies(words).Err? ==> RuleDependencies(words) == Err(IndexError)
    decreases |words|
  {
    if |words| > 0 {
      RuleDependenciesFailure(words[..|words| - 1]);
      CleanPartsFailure([], Utils.Pieces(words[|words| - 1], '/'));
    }
  }

  /** A dependency set holds exactly the cleaned words other than `\`,
      each of them a clean path. */
  lemma {:induction false} RuleDependenciesAre(words: seq<string>, p: string)
    requires RuleDependencies(words).Ok?
    ensures p in RuleDependencies(words).value <==>
      exists k :: 0 <= k < |words| && words[k] != "\\" && CleanPathOf(words[k]) == Ok(p)
    decreases |words|
  {
    if |words| > 0 {
      var n := |words| - 1;
      RuleDependenciesAre(words[..n], p);
      if exists k :: 0 <= k < n && words[..n][k] != "\\" && CleanPathOf(words[..n][k]) == Ok(p) {
        var k :| 0 <= k < n && words[..n][k] != "\\" && CleanPathOf(words[..n][k]) == Ok(p);
        assert words[k] == words[..n][k];
      }
      if exists k :: 0 <= k < |words| && words[k] != "\\" && CleanPathOf(words[k]) == Ok(p) {
        var k :| 0 <= k < |words| && words[k] != "\\" && CleanPathOf(words[k]) == Ok(p);
        if k < n {
          assert words[..n][k] == words[k];
        }
      }
    }
  }

  /** `generateDependency`: `None` when the compiler fails (the source
      returns `False` and the compiler's output), otherwise the dependencies
      of the make rule it printed, without its target. */
  method GenerateDependency(retcode: int, makeRule: string) returns (r: Result<Option<set<string>>>)
    ensures retcode != 0 ==> r == Ok(None)
    ensures retcode == 0 ==>
      var words := Words(makeRule);
      var rest := if |words| == 0 then [] else words[1..];
      (r.Ok? <==> RuleDependencies(rest).Ok?)
      && (r.Ok? ==> r.value == Some(RuleDependencies(rest).value))
  {
    if retcode != 0 {
      return Ok(None);
    }
    var words := Words(makeRule);
    var rest := if |words| == 0 then [] else words[1..];
    var deps := CollectDependencies(rest);
    if deps.Err? {
      return Err(deps.failure);
    }
    return Ok(Some(deps.value));
  }

  // ---------------------------------------------------------------------
  // phase2FindObjectsForLinkage
  // ---------------------------------------------------------------------

  /** `s[-n:] == suffix` for a suffix of length `n`. */
  predicate EndsWith(s: string, suffix: string) {
    |s| >= |suffix| && s[|s| - |suffix|..] == suffix
  }

  /** What a dependency `prec` contributes to the objects to link: a header
      contributes the object of its stem when a `.cc` or `.c` of that stem
      exists and nothing otherwise, a source contributes its object, and any
      other file itself. */
  function LinkObject(prec: string, files: set<string>): Option<string> {
    if EndsWith(prec, ".h") then
      var stem := prec[..|prec| - 2];
      if stem + ".cc" in files || stem + ".c" in files then Some(stem + ".o") else None
    else if EndsWith(prec, ".c") then Some(prec[..|prec| - 2] + ".o")
    else if EndsWith(prec, ".cc") then Some(prec[..|prec| - 3] + ".o")
    else Some(prec)
  }

  /** A source contributes the object `objNameFromSrcName` names for it, and
      so does a header whose source exists; a header with no source
      contributes nothing. */
  lemma LinkObjectOfSource(stem: string, files: set<string>)
    ensures LinkObject(stem + ".cc", files) == Some(stem + ".o") && ObjName(stem + ".cc") == Ok(stem + ".o")
    ensures LinkObject(stem + ".c", files) == Some(stem + ".o") && ObjName(stem + ".c") == Ok(stem + ".o")
    ensures LinkObject(stem + ".h", files) ==
      if stem + ".cc" in files || stem + ".c" in files then Some(stem + ".o") else None
  {
    ObjNameOfSource(stem);
    var cc, c, h := stem + ".cc", stem + ".c", stem + ".h";
    assert cc[|cc| - 2..] == ['c', 'c'] && cc[..|cc| - 3] == stem;
    assert c[|c| - 2..] == ".c" && c[..|c| - 2] == stem;
    assert h[|h| - 2..] == ".h" && h[..|h| - 2] == stem;
  }

  /** `o` has recorded dependencies, one of which contributes `p`. */
  ghost predicate Contributes(deps: map<string, seq<string>>, files: set<string>, o: string, p: string) {
    o in deps && exists k :: 0 <= k < |deps[o]| && LinkObject(deps[o][k], files) == Some(p)
  }

  /** A set of objects that holds whatever its members contribute. */
  ghost predicate IsClosed(objs: set<string>, deps: map<string, seq<string>>, files: set<string>) {
    forall o, p :: o in objs && Contributes(deps, files, o, p) ==> p in objs
  }

  /** `o` belongs to every closed set that holds the main object: it is the
      main object or, transitively, contributed by it. */
  ghost predicate Needed(o: string, mainObj: string, deps: map<string, seq<string>>, files: set<string>) {
    forall objs: set<string> :: mainObj in objs && IsClosed(objs, deps, files) ==> o in objs
  }

  /** One of the recorded dependencies of `o` is not a file (the `assert`
      of the source fails on it). */
  ghost predicate Missing(o: string, deps: map<string, seq<string>>, files: set<string>) {
    o in deps && exists k :: 0 <= k < |deps[o]| && deps[o][k] !in files
  }

  /** The order in which the objects were found: the main object first, and
      every other one contributed by an object found before it. */
  ghost predicate Ranked(rank: map<string, nat>, mainObj: string, deps: map<string, seq<string>>, files: set<string>) {
    mainObj in rank && rank[mainObj] == 0
    && forall o :: o in rank && o != mainObj ==>
         exists i :: i in rank && rank[i] < rank[o] && Contributes(deps, files, i, o)
  }

  /** Every object found is needed. */
  lemma RankedIsNeeded(rank: map<string, nat>, mainObj: string, deps: map<string, seq<string>>, files: set<string>, o: string)
    requires Ranked(rank, mainObj, deps, files) && o in rank
    ensures Needed(o, mainObj, deps, files)
  {
    forall objs: set<string> | mainObj in objs && IsClosed(objs, deps, files)
      ensures o in objs
    {
      RankedInClosed(rank, mainObj, deps, files, objs, o);
    }
  }

  lemma RankedInClosed(rank: map<string, nat>, mainObj: string, deps: map<string, seq<string>>, files: set<string>,
                       objs: set<string>, o: string)
    requires Ranked(rank, mainObj, deps, files) && o in rank
    requires mainObj in objs && IsClosed(objs, deps, files)
    ensures o in objs
    decreases rank[o]
  {
    if o != mainObj {
      var i :| i in rank && rank[i] < rank[o] && Contributes(deps, files, i, o);
      RankedInClosed(rank, mainObj, deps, files, objs, i);
    }
  }

  /** Every object that can ever be found. */
  ghost function Universe(mainObj: string, deps: map<string, seq<string>>, files: set<string>): set<string> {
    {mainObj} + set o, k | o in deps && 0 <= k < DepCount(deps, o) && LinkObject(deps[o][k], files).Some?
      :: LinkObject(deps[o][k], files).value
  }

  function DepCount(deps: map<string, seq<string>>, o: string): nat
    requires o in deps
  {
    |deps[o]|
  }

  /** The elements of a list. */
  ghost function SetOf(xs: seq<string>): set<string> {
    set x | x in xs
  }

  ghost predicate Distinct(xs: seq<string>) {
    forall a, b :: 0 <= a < b < |xs| ==> xs[a] != xs[b]
  }

  /** Distinct elements of a set are no more than the set holds. */
  lemma {:induction false} DistinctBound(xs: seq<string>, u: set<string>)
    requires Distinct(xs) && forall k :: 0 <= k < |xs| ==> xs[k] in u
    ensures |xs| <= |u|
    decreases |xs|
  {
    if |xs| > 0 {
      var rest := xs[1..];
      assert forall k :: 0 <= k < |rest| ==> rest[k] == xs[k + 1];
      DistinctBound(rest, u - {xs[0]});
    }
  }

  /** What holds of the objects and the stack between two passes of the
      outer loop. */
  ghost predicate SearchState(mainObj: string, deps: map<string, seq<string>>, files: set<string>,
                              stack: seq<string>, objs: seq<string>, rank: map<string, nat>) {
    Distinct(objs) && |objs| > 0 && objs[|objs| - 1] == mainObj
    && (forall x :: x in stack ==> x in objs)
    && (forall o :: o in objs <==> o in rank)
    && Ranked(rank, mainObj, deps, files)
    && (forall o :: o in objs ==> o in Universe(mainObj, deps, files))
    && (forall o :: o in objs && o !in stack ==> Done(o, deps, files, objs))
  }

  /** `o` has been processed: its dependencies are files and what they
      contribute has been found. */
  ghost predicate Done(o: string, deps: map<string, seq<string>>, files: set<string>, objs: seq<string>) {
    o in deps ==> forall k :: 0 <= k < |deps[o]| ==>
      deps[o][k] in files && (LinkObject(deps[o][k], files).Some? ==> LinkObject(deps[o][k], files).value in objs)
  }

  /** What holds between two dependencies of the popped object `x`, started
      from `stack` and `objs`. */
  ghost predicate InnerState(mainObj: string, deps: map<string, seq<string>>, files: set<string>, x: string,
                             stack: seq<string>, objs: seq<string>,
                             st: seq<string>, os: seq<string>, rank: map<string, nat>) {
    Distinct(os) && |os| > 0 && os[|os| - 1] == mainObj && x in os
    && (forall y :: y in st ==> y in os)
    && (forall o :: o in os <==> o in rank)
    && Ranked(rank, mainObj, deps, files)
    && (forall o :: o in os ==> o in Universe(mainObj, deps, files))
    && (forall o :: o in objs ==> o in os)
    && (forall o :: o in os && o !in st && o != x ==> Done(o, deps, files, os))
    && |os| >= |objs| && (|os| == |objs| ==> st == stack)
    && (forall y :: y in stack ==> y in st)
  }

  lemma DoneGrows(o: string, deps: map<string, seq<string>>, files: set<string>, os: seq<string>, os': seq<string>)
    requires Done(o, deps, files, os) && forall y :: y in os ==> y in os'
    ensures Done(o, deps, files, os')
  {
  }

  lemma DistinctCons(p: string, os: seq<string>)
    requires Distinct(os) && p !in os
    ensures Distinct([p] + os)
  {
    var os' := [p] + os;
    forall a, b | 0 <= a < b < |os'| ensures os'[a] != os'[b] {
      assert os'[b] == os[b - 1];
      if a > 0 {
        assert os'[a] == os[a - 1];
      }
    }
  }

  /** Ranking a new object one above an object that contributes it keeps
      the ranking. */
  lemma RankedExtend(rank: map<string, nat>, mainObj: string, deps: map<string, seq<string>>, files: set<string>,
                     x: string, p: string)
    requires Ranked(rank, mainObj, deps, files) && x in rank && p !in rank && Contributes(deps, files, x, p)
    ensures Ranked(rank[p := rank[x] + 1], mainObj, deps, files)
  {
    var rank' := rank[p := rank[x] + 1];
    forall o | o in rank' && o != mainObj
      ensures exists i :: i in rank' && rank'[i] < rank'[o] && Contributes(deps, files, i, o)
    {
      if o == p {
        assert x in rank' && rank'[x] < rank'[o];
      } else {
        var i :| i in rank && rank[i] < rank[o] && Contributes(deps, files, i, o);
        assert i in rank' && rank'[i] < rank'[o];
      }
    }
  }

  lemma InUniverse(mainObj: string, deps: map<string, seq<string>>, files: set<string>, x: string, k: nat)
    requires x in deps && k < |deps[x]| && LinkObject(deps[x][k], files).Some?
    ensures Contributes(deps, files, x, LinkObject(deps[x][k], files).value)
    ensures LinkObject(deps[x][k], files).value in Universe(mainObj, deps, files)
  {
    assert 0 <= k < DepCount(deps, x);
  }

  /** A new object `p` contributed by `x`, put in front of both lists,
      keeps the state. */
  lemma AddFound(mainObj: string, deps: map<string, seq<string>>, files: set<string>, x: string,
                 stack: seq<string>, objs: seq<string>,
                 st: seq<string>, os: seq<string>, rank: map<string, nat>, k: nat)
    requires InnerState(mainObj, deps, files, x, stack, objs, st, os, rank)
    requires x in deps && k < |deps[x]|
    requires LinkObject(deps[x][k], files).Some? && LinkObject(deps[x][k], files).value !in os
    ensures var p := LinkObject(deps[x][k], files).value;
      InnerState(mainObj, deps, files, x, stack, objs, [p] + st, [p] + os, rank[p := rank[x] + 1])
  {
    var p := LinkObject(deps[x][k], files).value;
    var os', st' := [p] + os, [p] + st;
    InUniverse(mainObj, deps, files, x, k);
    DistinctCons(p, os);
    RankedExtend(rank, mainObj, deps, files, x, p);
    assert os'[|os'| - 1] == os[|os| - 1];
    forall o | o in os' && o !in st' && o != x
      ensures Done(o, deps, files, os')
    {
      DoneGrows(o, deps, files, os, os');
    }
  }

  /** The first `k` dependencies in `precs` are files and what they
      contribute is in `os`. */
  ghost predicate SeenUpTo(precs: seq<string>, k: nat, files: set<string>, os: seq<string>)
    requires k <= |precs|
  {
    forall j :: 0 <= j < k ==>
      precs[j] in files && (LinkObject(precs[j], files).Some? ==> LinkObject(precs[j], files).value in os)
  }

  lemma SeenUpToNext(precs: seq<string>, k: nat, files: set<string>, os: seq<string>)
    requires k < |precs| && SeenUpTo(precs, k, files, os) && precs[k] in files
    requires LinkObject(precs[k], files).Some? ==> LinkObject(precs[k], files).value in os
    ensures SeenUpTo(precs, k + 1, files, os)
  {
  }

  lemma SeenUpToGrows(precs: seq<string>, k: nat, files: set<string>, os: seq<string>, p: string)
    requires k <= |precs| && SeenUpTo(precs, k, files, os)
    ensures SeenUpTo(precs, k, files, [p] + os)
  {
  }

  /** The state after popping `x` is where the inner loop starts. */
  lemma StartInner(mainObj: string, deps: map<string, seq<string>>, files: set<string>, x: string,
                   stack: seq<string>, objs: seq<string>, rank: map<string, nat>)
    requires x in objs && SearchState(mainObj, deps, files, stack + [x], objs, rank)
    ensures InnerState(mainObj, deps, files, x, stack, objs, stack, objs, rank)
  {
    forall y | y in stack ensures y in objs {
      assert y in stack + [x];
    }
    forall o | o in objs && o !in stack && o != x ensures Done(o, deps, files, objs) {
      assert o !in stack + [x];
    }
  }

  /** Once every dependency of `x` is seen, the outer state holds again. */
  lemma FinishInner(mainObj: string, deps: map<string, seq<string>>, files: set<string>, x: string,
                    stack: seq<string>, objs: seq<string>, st: seq<string>, os: seq<string>, rank: map<string, nat>)
    requires x in deps
    requires InnerState(mainObj, deps, files, x, stack, objs, st, os, rank)
    requires SeenUpTo(deps[x], |deps[x]|, files, os)
    ensures SearchState(mainObj, deps, files, st, os, rank)
  {
    assert Done(x, deps, files, os);
  }

  /** The inner loop of `phase2FindObjectsForLinkage` over the dependencies
      of the popped object `x`: each must exist, and each object it
      contributes that is new is put in front of both lists. */
  method ProcessObject(mainObj: string, deps: map<string, seq<string>>, files: set<string>, x: string,
                       stack: seq<string>, objs: seq<string>, ghost rank: map<string, nat>)
    returns (r: Result<(seq<string>, seq<string>)>, ghost rank': map<string, nat>)
    requires x in objs && x in deps
    requires SearchState(mainObj, deps, files, stack + [x], objs, rank)
    ensures r.Err? ==> r == Err(AssertionError) && Missing(x, deps, files)
    ensures r.Ok? ==>
      SearchState(mainObj, deps, files, r.value.0, r.value.1, rank')
      && |r.value.1| >= |objs| && (|r.value.1| == |objs| ==> r.value.0 == stack)
  {
    var st, os := stack, objs;
    rank' := rank;
    StartInner(mainObj, deps, files, x, stack, objs, rank);
    var precs := deps[x];
    var k := 0;
    while k < |precs|
      invariant 0 <= k <= |precs|
      invariant InnerState(mainObj, deps, files, x, stack, objs, st, os, rank')
      invariant SeenUpTo(precs, k, files, os)
    {
      var prec := precs[k];
      if prec !in files {
        return Err(AssertionError), rank';
      }
      var p := LinkObject(prec, files);
      if p.Some? && p.value !in os {
        AddFound(mainObj, deps, files, x, stack, objs, st, os, rank', k);
        SeenUpToGrows(precs, k, files, os, p.value);
        rank' := rank'[p.value := rank'[x] + 1];
        st, os := [p.value] + st, [p.value] + os;
      }
      SeenUpToNext(precs, k, files, os);
      k := k + 1;
    }
    FinishInner(mainObj, deps, files, x, stack, objs, st, os, rank');
    return Ok((st, os)), rank';
  }

  /** Popping an object and keeping the state: the object was found, and
      one with no recorded dependencies is done. */
  lemma Pop(mainObj: string, deps: map<string, seq<string>>, files: set<string>,
            stack: seq<string>, objs: seq<string>, rank: map<string, nat>)
    requires |stack| > 0 && SearchState(mainObj, deps, files, stack, objs, rank)
    ensures stack[..|stack| - 1] + [stack[|stack| - 1]] == stack
    ensures stack[|stack| - 1] in objs && stack[|stack| - 1] in rank
    ensures stack[|stack| - 1] !in deps ==> SearchState(mainObj, deps, files, stack[..|stack| - 1], objs, rank)
  {
    assert stack[|stack| - 1] in stack;
    var rest := stack[..|stack| - 1];
    assert forall y :: y in rest ==> y in stack;
    assert forall o :: o in objs && o !in rest && o != stack[|stack| - 1] ==> o !in stack;
  }

  /** One pass of the outer loop of `phase2FindObjectsForLinkage`: pop the
      last object of the stack and, when its dependencies are recorded,
      process them. */
  method Visit(mainObj: string, deps: map<string, seq<string>>, files: set<string>,
               stack: seq<string>, objs: seq<string>, ghost rank: map<string, nat>)
    returns (r: Result<(seq<string>, seq<string>)>, ghost rank': map<string, nat>)
    requires |stack| > 0 && SearchState(mainObj, deps, files, stack, objs, rank)
    ensures r.Err? ==> r == Err(AssertionError) && exists o :: Needed(o, mainObj, deps, files) && Missing(o, deps, files)
    ensures r.Ok? ==>
      SearchState(mainObj, deps, files, r.value.0, r.value.1, rank')
      && (|r.value.1| > |objs| || (|r.value.1| == |objs| && |r.value.0| < |stack|))
  {
    Pop(mainObj, deps, files, stack, objs, rank);
    var x := stack[|stack| - 1];
    var rest := stack[..|stack| - 1];
    if x !in deps {
      return Ok((rest, objs)), rank;
    }
    r, rank' := ProcessObject(mainObj, deps, files, x, rest, objs, rank);
    if r.Err? {
      RankedIsNeeded(rank, mainObj, deps, files, x);
    }
  }

  /** With nothing left on the stack, the objects found are closed and none
      misses a dependency. */
  lemma Exhausted(mainObj: string, deps: map<string, seq<string>>, files: set<string>,
                  objs: seq<string>, rank: map<string, nat>)
    requires SearchState(mainObj, deps, files, [], objs, rank)
    ensures IsClosed(SetOf(objs), deps, files)
    ensures forall o :: o in objs ==> Needed(o, mainObj, deps, files) && !Missing(o, deps, files)
    ensures forall o :: Needed(o, mainObj, deps, files) ==> o in objs
  {
    forall o, p | o in SetOf(objs) && Contributes(deps, files, o, p) ensures p in SetOf(objs) {
      assert Done(o, deps, files, objs);
      var k :| 0 <= k < |deps[o]| && LinkObject(deps[o][k], files) == Some(p);
    }
    forall o | o in objs
      ensures Needed(o, mainObj, deps, files) && !Missing(o, deps, files)
    {
      assert Done(o, deps, files, objs);
      RankedIsNeeded(rank, mainObj, deps, files, o);
    }
    assert mainObj in SetOf(objs);
  }

  /** `phase2FindObjectsForLinkage(main_obj, deps)`: the objects to link,
      each once and the main object last; every recorded dependency of a
      needed object must exist. */
  method Phase2FindObjectsForLinkage(mainObj: string, deps: map<string, seq<string>>, files: set<string>)
    returns (r: Result<seq<string>>)
    ensures r.Ok? ==>
      Distinct(r.value) && |r.value| > 0 && r.value[|r.value| - 1] == mainObj
      && IsClosed(SetOf(r.value), deps, files)
      && (forall o :: o in r.value ==> Needed(o, mainObj, deps, files) && !Missing(o, deps, files))
      && (forall o :: Needed(o, mainObj, deps, files) ==> o in r.value)
    ensures r.Err? ==> r == Err(AssertionError) && exists o :: Needed(o, mainObj, deps, files) && Missing(o, deps, files)
  {
    var stack := [mainObj];
    var objs := [mainObj];
    ghost var rank := map[mainObj := 0];
    ghost var u := Universe(mainObj, deps, files);
    while |stack| > 0
      invariant SearchState(mainObj, deps, files, stack, objs, rank)
      invariant |objs| <= |u|
      decreases |u| - |objs|, |stack|
    {
      var step;
      ghost var rank';
      step, rank' := Visit(mainObj, deps, files, stack, objs, rank);
      if step.Err? {
        return Err(AssertionError);
      }
      stack, objs, rank := step.value.0, step.value.1, rank';
      DistinctBound(objs, u);
    }
    Exhausted(mainObj, deps, files, objs, rank);
    return Ok(objs);
  }
}
