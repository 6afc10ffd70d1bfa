/** Walking the files that patterns match, and those that the visited files
    name in turn (internal/aghos/filewalker.go). */
module FileWalker {
  import opened Wrappers

  type Path = string

  /** What opening a path leads to; `contents` is what the callback makes of a
      regular file: new patterns and whether to go on, or an error. */
  datatype File =
    | Missing
    | Unopenable
    | Unreadable
    | Directory
    | Regular(contents: Result<(seq<string>, bool), ()>)

  /** A static file system.  `glob` fails on malformed patterns only. */
  datatype FS = FS(glob: string -> Option<seq<Path>>, open: Path -> File)

  /** `checkFile`: patterns and whether to go on, or an error. */
  function CheckFile(fs: FS, p: Path): Result<(seq<string>, bool), ()> {
    match fs.open(p)
    case Missing => Ok(([], true))
    case Unopenable => Err(())
    case Unreadable => Err(())
    case Directory => Ok(([], true))
    case Regular(c) => c
  }

  /** The patterns that a file names: those that the callback finds in it. */
  ghost function Patterns(fs: FS, p: Path): seq<string> {
    match fs.open(p)
    case Regular(Ok(found)) => found.0
    case _ => []
  }

  /** The paths that some of the patterns matches. */
  ghost predicate Matches(fs: FS, patterns: seq<string>, p: Path) {
    exists q :: q in patterns && fs.glob(q).Some? && p in fs.glob(q).value
  }

  ghost predicate AllParse(fs: FS, patterns: seq<string>) {
    forall q :: q in patterns ==> fs.glob(q).Some?
  }

  /** Reachable from the initial patterns by at most n steps from file to file. */
  ghost predicate Reach(fs: FS, initial: seq<string>, n: nat, p: Path) {
    || Matches(fs, initial, p)
    || (n > 0 && exists x :: Reach(fs, initial, n - 1, x) && Matches(fs, Patterns(fs, x), p))
  }

  /** The least set closed under taking matches. */
  ghost predicate Reachable(fs: FS, initial: seq<string>, p: Path) {
    exists n: nat :: Reach(fs, initial, n, p)
  }

  ghost predicate Distinct<T>(s: seq<T>) {
    forall i, j :: 0 <= i < j < |s| ==> s[i] != s[j]
  }

  ghost function Elements<T>(s: seq<T>): set<T> {
    set x | x in s
  }

  /** The matches of the patterns, in order, repetitions included. */
  ghost function Expand(fs: FS, patterns: seq<string>): seq<Path>
    requires AllParse(fs, patterns)
  {
    if patterns == [] then []
    else
      var init := patterns[..|patterns| - 1];
      assert forall q :: q in init ==> q in patterns;
      Expand(fs, init) + fs.glob(patterns[|patterns| - 1]).value
  }

  /** The first occurrences of the paths that are not in `seen`. */
  ghost function Novel(seen: set<Path>, s: seq<Path>): seq<Path> {
    if s == [] then [] else
      var r := Novel(seen, s[..|s| - 1]);
      if s[|s| - 1] in seen || s[|s| - 1] in r then r else r + [s[|s| - 1]]
  }

  lemma {:induction false} NovelElements(seen: set<Path>, s: seq<Path>)
    ensures Distinct(Novel(seen, s))
    ensures forall p :: p in Novel(seen, s) <==> p in s && p !in seen
  {
    if s != [] {
      NovelElements(seen, s[..|s| - 1]);
      assert forall p :: p in s <==> p in s[..|s| - 1] || p == s[|s| - 1];
    }
  }

  /** They are the first occurrences, in the order of the listing: `at` are their places. */
  lemma {:induction false} NovelOrder(seen: set<Path>, s: seq<Path>) returns (at: seq<nat>)
    ensures |at| == |Novel(seen, s)|
    ensures forall j, k :: 0 <= j < k < |at| ==> at[j] < at[k]
    ensures forall k :: 0 <= k < |at| ==> at[k] < |s| && s[at[k]] == Novel(seen, s)[k]
    ensures forall k, i :: 0 <= k < |at| && 0 <= i < at[k] ==> s[i] != s[at[k]]
  {
    at := [];
    if s != [] {
      var n := |s| - 1;
      at := NovelOrder(seen, s[..n]);
      NovelElements(seen, s[..n]);
      if !(s[n] in seen || s[n] in Novel(seen, s[..n])) {
        assert forall i :: 0 <= i < n ==> s[i] in s[..n];
        at := at + [n];
      }
    }
  }

  /** The matches are listed pattern by pattern. */
  lemma {:induction false} ExpandConcat(fs: FS, a: seq<string>, b: seq<string>)
    requires AllParse(fs, a + b)
    ensures AllParse(fs, a) && AllParse(fs, b) && Expand(fs, a + b) == Expand(fs, a) + Expand(fs, b)
  {
    assert forall q :: q in a || q in b ==> q in a + b;
    if b == [] {
      assert a + b == a && Expand(fs, a) + [] == Expand(fs, a);
    } else {
      var init := b[..|b| - 1];
      assert (a + b)[..|a + b| - 1] == a + init && (a + b)[|a + b| - 1] == b[|b| - 1];
      assert forall q :: q in a + init ==> q in a + b;
      ExpandConcat(fs, a, init);
    }
  }

  lemma ExpandOne(fs: FS, q: string)
    requires AllParse(fs, [q])
    ensures Expand(fs, [q]) == fs.glob(q).value
  {
    assert [q][..0] == [];
  }

  lemma {:induction false} ExpandElements(fs: FS, patterns: seq<string>)
    requires AllParse(fs, patterns)
    ensures forall p :: p in Expand(fs, patterns) <==> Matches(fs, patterns, p)
  {
    if patterns != [] {
      var init := patterns[..|patterns| - 1];
      assert forall q :: q in patterns <==> q in init || q == patterns[|patterns| - 1];
      ExpandElements(fs, init);
    }
  }

  lemma NovelSnoc(seen: set<Path>, s: seq<Path>, p: Path)
    ensures var r := Novel(seen, s);
            Novel(seen, s + [p]) == if p in seen || p in r then r else r + [p]
  {
  }

  lemma ExpandSnoc(fs: FS, patterns: seq<string>, q: string)
    requires AllParse(fs, patterns) && fs.glob(q).Some?
    ensures AllParse(fs, patterns + [q]) && Expand(fs, patterns + [q]) == Expand(fs, patterns) + fs.glob(q).value
  {
  }

  lemma NovelOfNone(fs: FS, seen: set<Path>, patterns: seq<string>)
    requires patterns == []
    ensures Novel(seen, Expand(fs, patterns)) == []
  {
  }

  /** `handlePatterns`: the matches that are not in `seen` yet, each once and in
      the order of their discovery. */
  method HandlePatterns(fs: FS, seen0: set<Path>, patterns: seq<string>) returns (r: Option<seq<Path>>, seen: set<Path>)
    ensures r.Some? <==> AllParse(fs, patterns)
    ensures r.Some? ==> r.value == Novel(seen0, Expand(fs, patterns)) && seen == seen0 + Elements(r.value)
  {
    hide Novel;
    hide Expand;
    var sub := [];
    seen := seen0;
    NovelOfNone(fs, seen0, patterns[..0]);
    for i := 0 to |patterns|
      invariant AllParse(fs, patterns[..i])
      invariant sub == Novel(seen0, Expand(fs, patterns[..i])) && seen == seen0 + Elements(sub)
    {
      var matches := fs.glob(patterns[i]);
      if matches.None? {
        return None, seen;
      }
      var ms := matches.value;
      ghost var before := Expand(fs, patterns[..i]);
      assert before + ms[..0] == before;
      for j := 0 to |ms|
        invariant sub == Novel(seen0, before + ms[..j]) && seen == seen0 + Elements(sub)
      {
        assert before + ms[..j + 1] == before + ms[..j] + [ms[j]];
        NovelSnoc(seen0, before + ms[..j], ms[j]);
        if ms[j] !in seen {
          seen := seen + {ms[j]};
          sub := sub + [ms[j]];
        }
      }
      assert patterns[..i + 1] == patterns[..i] + [patterns[i]] && ms[..|ms|] == ms;
      ExpandSnoc(fs, patterns[..i], patterns[i]);
    }
    assert patterns[..|patterns|] == patterns;
    return Some(sub), seen;
  }

  /** How far a walk has got: `par[j]` is the place of the file whose patterns
      brought up src[j] first, -1 for the initial patterns; the first `done`
      files have been visited. */
  ghost predicate Trace(fs: FS, initial: seq<string>, src: seq<Path>, par: seq<int>, done: nat) {
    && Shape(src, par, done)
    && (forall j :: 0 <= j < |src| ==> Matches(fs, if par[j] < 0 then initial else Patterns(fs, src[par[j]]), src[j]))
    && (forall k, p :: -1 <= k < done && Matches(fs, if k < 0 then initial else Patterns(fs, src[k]), p) ==> FoundBy(src, par, p, k))
  }

  ghost predicate Shape(src: seq<Path>, par: seq<int>, done: nat) {
    && |par| == |src| && done <= |src| && Distinct(src)
    && (forall j :: 0 <= j < |src| ==> -1 <= par[j] < done && par[j] < j)
    && (forall i, j :: 0 <= i < j < |src| ==> par[i] <= par[j])
  }

  ghost predicate FoundBy(src: seq<Path>, par: seq<int>, p: Path, k: int)
    requires |src| == |par|
  {
    exists j :: 0 <= j < |src| && src[j] == p && par[j] <= k
  }

  /** What a trace says about one place or one path. */
  lemma TraceAt(fs: FS, initial: seq<string>, src: seq<Path>, par: seq<int>, done: nat, b: nat)
    requires Trace(fs, initial, src, par, done) && b < |src|
    ensures -1 <= par[b] < done && par[b] < b
    ensures Matches(fs, if par[b] < 0 then initial else Patterns(fs, src[par[b]]), src[b])
    ensures forall a :: 0 <= a < b ==> par[a] <= par[b]
  {
  }

  lemma TraceFound(fs: FS, initial: seq<string>, src: seq<Path>, par: seq<int>, done: nat, k: int, p: Path)
    requires Trace(fs, initial, src, par, done) && -1 <= k < done
    requires Matches(fs, if k < 0 then initial else Patterns(fs, src[k]), p)
    ensures p in src && forall b :: 0 <= b < |src| && src[b] == p ==> par[b] <= k
  {
    assert FoundBy(src, par, p, k);
  }

  lemma {:induction false} ReachMore(fs: FS, initial: seq<string>, n: nat, p: Path)
    requires Reach(fs, initial, n, p)
    ensures Reach(fs, initial, n + 1, p)
  {
    if !Matches(fs, initial, p) {
      var x :| Reach(fs, initial, n - 1, x) && Matches(fs, Patterns(fs, x), p);
      ReachMore(fs, initial, n - 1, x);
    }
  }

  /** Files come up in the order of their distance from the initial patterns,
      and a path that has not come up is no nearer than any visited file. */
  ghost predicate Ordered(fs: FS, initial: seq<string>, src: seq<Path>, done: nat, n: nat) {
    && (forall a, b :: 0 <= a < b < |src| && Reach(fs, initial, n, src[b]) ==> Reach(fs, initial, n, src[a]))
    && (forall x, k :: Reach(fs, initial, n, x) && x !in src && 0 <= k < done && k < |src| ==> Reach(fs, initial, n, src[k]))
  }

  lemma {:induction false} BreadthFirst(fs: FS, initial: seq<string>, src: seq<Path>, par: seq<int>, done: nat, n: nat)
    requires Trace(fs, initial, src, par, done)
    ensures Ordered(fs, initial, src, done, n)
  {
    if n > 0 {
      BreadthFirst(fs, initial, src, par, done, n - 1);
    }
    hide Trace;
    forall a, b | 0 <= a < b < |src| && Reach(fs, initial, n, src[b]) ensures Reach(fs, initial, n, src[a]) {
      ParentNearer(fs, initial, src, par, done, n, b);
      TraceAt(fs, initial, src, par, done, a);
      TraceAt(fs, initial, src, par, done, b);
      assert par[a] >= 0 ==> Reach(fs, initial, n - 1, src[par[a]]);
    }
    forall x, k | Reach(fs, initial, n, x) && x !in src && 0 <= k < done && k < |src| ensures Reach(fs, initial, n, src[k]) {
      LateIsFar(fs, initial, src, par, done, n, x, k);
    }
  }

  lemma LateIsFar(fs: FS, initial: seq<string>, src: seq<Path>, par: seq<int>, done: nat, n: nat, x: Path, k: nat)
    requires Trace(fs, initial, src, par, done) && k < done && k < |src|
    requires Reach(fs, initial, n, x) && x !in src
    requires n > 0 ==> Ordered(fs, initial, src, done, n - 1)
    ensures Reach(fs, initial, n, src[k])
  {
    hide Trace;
    if Matches(fs, initial, x) {
      TraceFound(fs, initial, src, par, done, -1, x);
    } else {
      var y :| Reach(fs, initial, n - 1, y) && Matches(fs, Patterns(fs, y), x);
      if y in src {
        var ky :| 0 <= ky < |src| && src[ky] == y;
        if ky < done {
          TraceFound(fs, initial, src, par, done, ky, x);
        } else {
          ReachMore(fs, initial, n - 1, src[k]);
        }
      } else {
        ReachMore(fs, initial, n - 1, src[k]);
      }
    }
  }

  /** The file that first named another one is a step nearer. */
  lemma ParentNearer(fs: FS, initial: seq<string>, src: seq<Path>, par: seq<int>, done: nat, n: nat, b: nat)
    requires Trace(fs, initial, src, par, done) && b < |src| == |par| && Reach(fs, initial, n, src[b])
    requires n > 0 ==> Ordered(fs, initial, src, done, n - 1)
    ensures par[b] >= 0 ==> n > 0 && par[b] < |src| && Reach(fs, initial, n - 1, src[par[b]])
  {
    hide Trace;
    TraceAt(fs, initial, src, par, done, b);
    if Matches(fs, initial, src[b]) {
      TraceFound(fs, initial, src, par, done, -1, src[b]);
    } else {
      var x :| Reach(fs, initial, n - 1, x) && Matches(fs, Patterns(fs, x), src[b]);
      if x in src {
        var kx :| 0 <= kx < |src| && src[kx] == x;
        if kx < done {
          TraceFound(fs, initial, src, par, done, kx, src[b]);
        }
      }
    }
  }

  /** Once every file that came up has been visited, what came up is all that is
      reachable. */
  lemma {:induction false} CompleteTrace(fs: FS, initial: seq<string>, src: seq<Path>, par: seq<int>, n: nat, p: Path)
    requires Trace(fs, initial, src, par, |src|) && Reach(fs, initial, n, p)
    ensures p in src
  {
    if Matches(fs, initial, p) {
      assert FoundBy(src, par, p, -1);
    } else {
      var x :| Reach(fs, initial, n - 1, x) && Matches(fs, Patterns(fs, x), p);
      CompleteTrace(fs, initial, src, par, n - 1, x);
      var k :| 0 <= k < |src| && src[k] == x;
      assert FoundBy(src, par, p, k);
    }
  }

  lemma {:induction false} TraceReachable(fs: FS, initial: seq<string>, src: seq<Path>, par: seq<int>, done: nat, j: nat)
    requires Trace(fs, initial, src, par, done) && j < |src|
    ensures Reachable(fs, initial, src[j])
    decreases j
  {
    assert Matches(fs, if par[j] < 0 then initial else Patterns(fs, src[par[j]]), src[j]);
    if par[j] < 0 {
      assert Reach(fs, initial, 0, src[j]);
    } else {
      TraceReachable(fs, initial, src, par, done, par[j]);
      var n: nat :| Reach(fs, initial, n, src[par[j]]);
      assert Reach(fs, initial, n + 1, src[j]);
    }
  }

  lemma TraceStart(fs: FS, initial: seq<string>, src: seq<Path>)
    requires AllParse(fs, initial) && src == Novel({}, Expand(fs, initial))
    ensures Trace(fs, initial, src, seq(|src|, _ => -1), 0)
  {
    NovelElements({}, Expand(fs, initial));
    ExpandElements(fs, initial);
    var par := seq(|src|, _ => -1);
    forall p | Matches(fs, initial, p) ensures FoundBy(src, par, p, -1) {
      var j :| 0 <= j < |src| && src[j] == p;
      assert par[j] <= -1;
    }
  }

  /** Visiting the file `done` adds the novel matches of its patterns. */
  lemma TraceStep(fs: FS, initial: seq<string>, src: seq<Path>, par: seq<int>, done: nat, sub: seq<Path>)
    requires Trace(fs, initial, src, par, done) && done < |src| && AllParse(fs, Patterns(fs, src[done]))
    requires sub == Novel(Elements(src), Expand(fs, Patterns(fs, src[done])))
    ensures Trace(fs, initial, src + sub, par + seq(|sub|, _ => done), done + 1)
  {
    var patterns := Patterns(fs, src[done]);
    NovelElements(Elements(src), Expand(fs, patterns));
    ExpandElements(fs, patterns);
    var src', par' := src + sub, par + seq(|sub|, _ => done);
    ShapeStep(src, par, done, sub);
    hide Shape;
    hide Novel;
    hide Expand;
    hide Matches;
    forall p, k | -1 <= k <= done && Matches(fs, if k < 0 then initial else Patterns(fs, src'[k]), p)
      ensures FoundBy(src', par', p, k)
    {
      if k < done {
        assert FoundBy(src, par, p, k);
        FoundStays(src, par, done, sub, p, k);
      } else {
        FoundNow(src, par, done, sub, p);
      }
    }
  }

  lemma ShapeStep(src: seq<Path>, par: seq<int>, done: nat, sub: seq<Path>)
    requires Shape(src, par, done) && done < |src| && Distinct(sub) && forall p :: p in sub ==> p !in Elements(src)
    ensures Shape(src + sub, par + seq(|sub|, _ => done), done + 1)
  {
    assert forall i :: 0 <= i < |src| ==> src[i] in Elements(src);
    assert forall i :: 0 <= i < |sub| ==> sub[i] in sub;
  }

  lemma FoundStays(src: seq<Path>, par: seq<int>, done: nat, sub: seq<Path>, p: Path, k: int)
    requires |src| == |par| && FoundBy(src, par, p, k)
    ensures FoundBy(src + sub, par + seq(|sub|, _ => done), p, k)
  {
    var j :| 0 <= j < |src| && src[j] == p && par[j] <= k;
    assert (src + sub)[j] == p && (par + seq(|sub|, _ => done))[j] <= k;
  }

  lemma FoundNow(src: seq<Path>, par: seq<int>, done: nat, sub: seq<Path>, p: Path)
    requires Shape(src, par, done) && (p in src || p in sub)
    ensures FoundBy(src + sub, par + seq(|sub|, _ => done), p, done)
  {
    if p in src {
      var j :| 0 <= j < |src| && src[j] == p;
      assert FoundBy(src, par, p, done);
      FoundStays(src, par, done, sub, p, done);
    } else {
      var j :| 0 <= j < |sub| && sub[j] == p;
      assert (src + sub)[|src| + j] == p;
    }
  }

  /** Distinct paths of a finite universe are at most as many. */
  lemma {:induction false} DistinctFits(src: seq<Path>, universe: set<Path>)
    requires Distinct(src) && forall p :: p in src ==> p in universe
    ensures |src| <= |universe|
  {
    if src != [] {
      var init, last := src[..|src| - 1], src[|src| - 1];
      assert last in universe;
      forall p | p in init ensures p in universe - {last} {
        assert p in src;
      }
      DistinctFits(init, universe - {last});
      assert |universe - {last}| == |universe| - 1;
    }
  }

  lemma TraceFits(fs: FS, initial: seq<string>, src: seq<Path>, par: seq<int>, done: nat, universe: set<Path>)
    requires Trace(fs, initial, src, par, done)
    requires forall q, p :: fs.glob(q).Some? && p in fs.glob(q).value ==> p in universe
    ensures |src| <= |universe|
  {
    forall p | p in src ensures p in universe {
      var j :| 0 <= j < |src| && src[j] == p;
      assert Matches(fs, if par[j] < 0 then initial else Patterns(fs, src[par[j]]), src[j]);
    }
    DistinctFits(src, universe);
  }

  /** A walk goes on after a missing file, after a directory, and after a file
      that the callback wants it to go on after, if the patterns in it parse. */
  ghost predicate GoesOn(fs: FS, p: Path) {
    match fs.open(p)
    case Missing => true
    case Directory => true
    case Regular(Ok(found)) => found.1 && AllParse(fs, found.0)
    case _ => false
  }

  /** The callback wants the walk to stop. */
  ghost predicate Stops(fs: FS, p: Path) {
    match fs.open(p)
    case Regular(Ok(found)) => !found.1
    case _ => false
  }

  /** The file cannot be opened or read, the callback fails, or a pattern in it is
      malformed. */
  ghost predicate Fails(fs: FS, p: Path) {
    match fs.open(p)
    case Unopenable => true
    case Unreadable => true
    case Regular(Err(_)) => true
    case Regular(Ok(found)) => found.1 && exists q :: q in found.0 && fs.glob(q).None?
    case _ => false
  }

  /** These three exclude each other, and `checkFile` tells them apart. */
  lemma CheckFileTells(fs: FS, p: Path)
    ensures (if GoesOn(fs, p) then 1 else 0) + (if Stops(fs, p) then 1 else 0) + (if Fails(fs, p) then 1 else 0) == 1
    ensures var c := CheckFile(fs, p);
            if c.Err? then Fails(fs, p)
            else if !c.value.1 then Stops(fs, p)
            else c.value.0 == Patterns(fs, p) && (if AllParse(fs, c.value.0) then GoesOn(fs, p) else Fails(fs, p))
  {
  }

  /** How a walk ends. */
  datatype Outcome = Stopped | Finished | Failed

  /** `FileWalker.Walk`.  `visited` are the files in the order of their visits;
      `universe` holds every path that a pattern can match. */
  method Walk(fs: FS, initial: seq<string>, ghost universe: set<Path>)
    returns (out: Outcome, visited: seq<Path>)
    requires forall q, p :: fs.glob(q).Some? && p in fs.glob(q).value ==> p in universe
    ensures Distinct(visited) && forall p :: p in visited ==> Reachable(fs, initial, p)
    ensures forall n: nat :: Ordered(fs, initial, visited, 0, n)
    ensures out.Finished? ==> forall p :: p in visited <==> Reachable(fs, initial, p)
    ensures forall i :: 0 <= i < |visited| - (if out.Finished? then 0 else 1) ==> GoesOn(fs, visited[i])
    ensures out.Stopped? <==> visited != [] && Stops(fs, visited[|visited| - 1])
    ensures out.Failed? <==> if visited == [] then !AllParse(fs, initial) else Fails(fs, visited[|visited| - 1])
  {
    var r, seen := HandlePatterns(fs, {}, initial);
    if r.None? {
      return Failed, [];
    }
    var src := r.value;
    ghost var par := seq(|src|, _ => -1);
    TraceStart(fs, initial, src);
    TraceFits(fs, initial, src, par, 0, universe);
    hide Trace;
    hide Ordered;
    hide Novel;
    hide Expand;
    hide Reachable;
    hide Patterns;
    hide CheckFile;
    hide GoesOn;
    hide Stops;
    hide Fails;
    hide AllParse;
    var i := 0;
    while i < |src|
      invariant 0 <= i <= |src| && Trace(fs, initial, src, par, i)
      invariant seen == Elements(src) && |src| <= |universe|
      invariant forall k :: 0 <= k < i ==> GoesOn(fs, src[k])
      decreases |universe| - i
    {
      TraceSummary(fs, initial, src, par, i, i + 1);
      assert src[..i + 1][i] == src[i];
      CheckFileTells(fs, src[i]);
      var c := CheckFile(fs, src[i]);
      if c.Err? {
        return Failed, src[..i + 1];
      }
      if !c.value.1 {
        return Stopped, src[..i + 1];
      }
      var sub;
      sub, seen := HandlePatterns(fs, seen, c.value.0);
      if sub.None? {
        return Failed, src[..i + 1];
      }
      TraceStep(fs, initial, src, par, i, sub.value);
      src, par := src + sub.value, par + seq(|sub.value|, _ => i);
      i := i + 1;
      TraceFits(fs, initial, src, par, i, universe);
    }
    TraceSummary(fs, initial, src, par, i, i);
    assert src[..i] == src;
    if src != [] {
      CheckFileTells(fs, src[i - 1]);
    }
    return Finished, src;
  }

  /** What a trace says about the first m files. */
  lemma TraceSummary(fs: FS, initial: seq<string>, src: seq<Path>, par: seq<int>, done: nat, m: nat)
    requires Trace(fs, initial, src, par, done) && m <= |src|
    ensures Distinct(src[..m]) && forall p :: p in src[..m] ==> Reachable(fs, initial, p)
    ensures forall n: nat :: Ordered(fs, initial, src[..m], 0, n)
    ensures done == m == |src| ==> forall p :: p in src[..m] <==> Reachable(fs, initial, p)
  {
    forall j | 0 <= j < |src| ensures Reachable(fs, initial, src[j]) {
      TraceReachable(fs, initial, src, par, done, j);
    }
    forall n: nat ensures Ordered(fs, initial, src[..m], 0, n) {
      BreadthFirst(fs, initial, src, par, done, n);
    }
    if done == m == |src| {
      forall p | Reachable(fs, initial, p) ensures p in src[..m] {
        var n: nat :| Reach(fs, initial, n, p);
        CompleteTrace(fs, initial, src, par, n, p);
      }
    }
  }
}
