/**
  Request-path resolution, `Keystone._find` and `Keystone._score_candidates`
  (keystone/main.py): hidden extensions, normalisation, the exact static file,
  the exact template, the pruned walk for `%`-parameterised candidates,
  scoring, the alphabetical tie-break and the binding of URL parameters.
 */
module Resolver {
  import opened Wrappers
  import opened Strings
  import opened Files
  import opened Render

  /** Requests for paths with these endings are refused outright. */
  const HiddenExts: seq<string> := [".ks", ".py", ".pyc", ".pyo"]

  predicate Hidden(path: string) {
    exists ext :: ext in HiddenExts && EndsWith(path, ext)
  }

  /** One leading `/` goes; the empty path is `index`. */
  function Normalize(path: string): (p: string)
    ensures p != ""
    ensures path == "" || path == "/" ==> p == "index"
    ensures |path| > 1 && path[0] == '/' ==> p == path[1..]
    ensures path != [] && path[0] != '/' ==> p == path
  {
    var stripped := if StartsWith(path, "/") then path[1..] else path;
    if stripped == "" then "index" else stripped
  }

  /** `os.path.basename`: what follows the last `/`. */
  function Basename(p: string): string {
    var segs := Split(p, '/');
    segs[|segs| - 1]
  }

  /** A file whose name starts with `_` is never served by an exact request. */
  predicate IsPrivate(p: string) {
    StartsWith(Basename(p), "_")
  }

  // ---------------------------------------------------------------------
  // The walk

  predicate IsWildcard(name: string) {
    StartsWith(name, "%")
  }

  /**
    Whether the walk keeps descending into sub-directory `name` of a
    directory at `depth`: it must lie within the request and equal the
    request's segment there or be a wildcard.
   */
  predicate Survives(parts: seq<string>, depth: nat, name: string) {
    depth < |parts| && (name == parts[depth] || IsWildcard(name))
  }

  /** The sub-directories the walk keeps, in listing order. */
  function Pruned(parts: seq<string>, depth: nat, names: seq<string>): (kept: seq<string>)
    ensures |kept| <= |names|
    ensures forall n :: n in kept <==> n in names && Survives(parts, depth, n)
  {
    if names == [] then []
    else
      var rest := Pruned(parts, depth, names[1..]);
      if Survives(parts, depth, names[0]) then [names[0]] + rest else rest
  }

  /**
    The pruning loop as written: it compares each name with
    `pathparts[depth]` first, which raises `IndexError` (None here) for a
    directory lying deeper than the request that has sub-directories.
   */
  function PrunedAsWritten(parts: seq<string>, depth: nat, names: seq<string>): (r: Option<seq<string>>)
    ensures r.None? <==> names != [] && depth >= |parts|
  {
    if names == [] then Some([])
    else if depth >= |parts| then None
    else
      var rest := PrunedAsWritten(parts, depth, names[1..]);
      if rest.None? then None
      else if names[0] == parts[depth] || IsWildcard(names[0]) then Some([names[0]] + rest.value)
      else rest
  }

  /** Where the loop as written does not raise, it keeps what `Pruned` keeps. */
  lemma {:induction false} PrunedAsWrittenAgrees(parts: seq<string>, depth: nat, names: seq<string>)
    requires PrunedAsWritten(parts, depth, names).Some?
    ensures PrunedAsWritten(parts, depth, names).value == Pruned(parts, depth, names)
  {
    if names != [] {
      PrunedAsWrittenAgrees(parts, depth, names[1..]);
    }
  }

  /** Pruning keeps a listing free of repeated names. */
  lemma {:induction false} PrunedDistinct(parts: seq<string>, depth: nat, names: seq<string>)
    requires Distinct(names)
    ensures Distinct(Pruned(parts, depth, names))
  {
    if names != [] {
      assert Distinct(names[1..]) by {
        forall i, j | 0 <= i < |names[1..]| && 0 <= j < |names[1..]| && i != j
          ensures names[1..][i] != names[1..][j]
        {
          assert names[1..][i] == names[i + 1] && names[1..][j] == names[j + 1];
        }
      }
      PrunedDistinct(parts, depth, names[1..]);
      forall k | 0 <= k < |names[1..]|
        ensures names[1..][k] != names[0]
      {
        assert names[1..][k] == names[k + 1];
      }
      DistinctAppend([names[0]], Pruned(parts, depth, names[1..]));
    }
  }

  /** Two sequences without repeats and without a common element concatenate to one without repeats. */
  lemma DistinctAppend<T>(a: seq<T>, b: seq<T>)
    requires Distinct(a) && Distinct(b)
    requires forall x :: x in a ==> x !in b
    ensures Distinct(a + b)
  {
    forall i, j | 0 <= i < |a + b| && 0 <= j < |a + b| && i != j
      ensures (a + b)[i] != (a + b)[j]
    {
      if i < |a| && j >= |a| {
        assert (a + b)[i] == a[i] && (a + b)[j] == b[j - |a|];
        assert a[i] in a && b[j - |a|] in b;
      } else if i >= |a| && j < |a| {
        assert (a + b)[j] == a[j] && (a + b)[i] == b[i - |a|];
        assert a[j] in a && b[i - |a|] in b;
      } else if i < |a| {
        assert (a + b)[i] == a[i] && (a + b)[j] == a[j];
      } else {
        assert (a + b)[i] == b[i - |a|] && (a + b)[j] == b[j - |a|];
      }
    }
  }

  /** In a well-formed tree every listing, known or not, is free of separators and repeats. */
  lemma ListingWellFormed(fs: FileSystem, dir: seq<string>)
    requires WellFormed(fs)
    ensures NoSeparator(ListingOf(fs, dir).subdirs, '/') && NoSeparator(ListingOf(fs, dir).files, '/')
    ensures Distinct(ListingOf(fs, dir).subdirs) && Distinct(ListingOf(fs, dir).files)
  {
  }

  /**
    The directories the walk visits: the application directory, and every
    kept sub-directory of a visited one.
   */
  predicate Reachable(fs: FileSystem, parts: seq<string>, dir: seq<string>)
    decreases |dir|
  {
    dir == [] ||
    (Reachable(fs, parts, dir[..|dir| - 1]) &&
     dir[|dir| - 1] in Pruned(parts, |dir| - 1, ListingOf(fs, dir[..|dir| - 1]).subdirs))
  }

  /**
    A visited directory lies within the request, each of its segments equal
    to the request's segment there or a wildcard, and (in a well-formed tree)
    none contains the separator.
   */
  lemma {:induction false} ReachableWithinRequest(fs: FileSystem, parts: seq<string>, dir: seq<string>)
    requires WellFormed(fs)
    requires Reachable(fs, parts, dir)
    ensures |dir| <= |parts|
    ensures forall i :: 0 <= i < |dir| ==> dir[i] == parts[i] || IsWildcard(dir[i])
    ensures NoSeparator(dir, '/')
    decreases |dir|
  {
    if dir != [] {
      var parent := dir[..|dir| - 1];
      ReachableWithinRequest(fs, parts, parent);
      var last := dir[|dir| - 1];
      assert last in ListingOf(fs, parent).subdirs && Survives(parts, |dir| - 1, last);
      assert parent in fs.dirs;
      assert '/' !in last;
      forall i | 0 <= i < |dir|
        ensures (dir[i] == parts[i] || IsWildcard(dir[i])) && '/' !in dir[i]
      {
        if i < |dir| - 1 {
          assert dir[i] == parent[i];
        }
      }
    }
  }

  /** Every directory on the way to a visited one is visited. */
  lemma {:induction false} ReachablePrefix(fs: FileSystem, parts: seq<string>, dir: seq<string>, k: nat)
    requires Reachable(fs, parts, dir) && k <= |dir|
    ensures Reachable(fs, parts, dir[..k])
    decreases |dir|
  {
    if k < |dir| {
      ReachablePrefix(fs, parts, dir[..|dir| - 1], k);
      assert dir[..|dir| - 1][..k] == dir[..k];
    } else {
      assert dir[..k] == dir;
    }
  }

  /** A file of a directory at the request's depth that can answer its last segment. */
  predicate FileMatches(f: string, last: string) {
    if IsWildcard(f) then true
    else if EndsWith(f, ".ks") then (last == "" && f == "index.ks") || f == last + ".ks"
    else f == last
  }

  predicate IsCandidateFile(fs: FileSystem, parts: seq<string>, dir: seq<string>, f: string) {
    |parts| > 0 && |dir| == |parts| - 1 && Reachable(fs, parts, dir) &&
    f in ListingOf(fs, dir).files && FileMatches(f, parts[|parts| - 1])
  }

  /** The directory part of a relative path: all but its last segment. */
  function DirOf(c: string): seq<string> {
    var segs := Split(c, '/');
    segs[..|segs| - 1]
  }

  /** A relative path the walk collects as a candidate for request segments `parts`. */
  predicate IsCandidatePath(fs: FileSystem, parts: seq<string>, c: string) {
    |Split(c, '/')| == |parts| && IsCandidateFile(fs, parts, DirOf(c), Basename(c))
  }

  /** The candidates are exactly the joins of candidate files. */
  lemma CandidateJoin(fs: FileSystem, parts: seq<string>, dir: seq<string>, f: string)
    requires WellFormed(fs)
    requires IsCandidateFile(fs, parts, dir, f)
    ensures Split(Join(dir + [f], '/'), '/') == dir + [f]
    ensures IsCandidatePath(fs, parts, Join(dir + [f], '/'))
  {
    ReachableWithinRequest(fs, parts, dir);
    assert dir in fs.dirs;
    SplitJoin(dir + [f], '/');
    var c := Join(dir + [f], '/');
    assert DirOf(c) == dir;
  }

  /**
    A candidate has one segment per request segment; each directory segment
    equals the request's segment there or is a wildcard, and the last one
    can answer the request's last segment.
   */
  lemma CandidateShape(fs: FileSystem, parts: seq<string>, c: string)
    requires WellFormed(fs)
    requires IsCandidatePath(fs, parts, c)
    ensures |Split(c, '/')| == |parts|
    ensures forall i :: 0 <= i < |parts| - 1 ==> Split(c, '/')[i] == parts[i] || IsWildcard(Split(c, '/')[i])
    ensures FileMatches(Split(c, '/')[|parts| - 1], parts[|parts| - 1])
  {
    var segs := Split(c, '/');
    var dir := DirOf(c);
    ReachableWithinRequest(fs, parts, dir);
    forall i | 0 <= i < |parts| - 1
      ensures segs[i] == parts[i] || IsWildcard(segs[i])
    {
      assert segs[i] == dir[i];
    }
  }

  /** In a tree whose listings agree with its files, every candidate is a regular file. */
  lemma CandidateIsFile(fs: FileSystem, parts: seq<string>, c: string)
    requires Listed(fs)
    requires IsCandidatePath(fs, parts, c)
    ensures c in fs.files
  {
    JoinDirOf(c);
    assert DirOf(c) in fs.dirs;
  }

  /** A path is the join of its directory part and its basename. */
  lemma JoinDirOf(c: string)
    ensures c == Join(DirOf(c) + [Basename(c)], '/')
  {
    var segs := Split(c, '/');
    JoinSplit(c, '/');
    assert DirOf(c) + [Basename(c)] == segs;
  }

  /** Within one separator-free directory, distinct separator-free names join to distinct paths. */
  lemma JoinInjective(dir: seq<string>, a: string, b: string)
    requires NoSeparator(dir, '/') && '/' !in a && '/' !in b
    requires Join(dir + [a], '/') == Join(dir + [b], '/')
    ensures a == b
  {
    SplitJoin(dir + [a], '/');
    SplitJoin(dir + [b], '/');
    assert (dir + [a])[|dir|] == a && (dir + [b])[|dir|] == b;
  }

  /** The kept-names loop of one directory. */
  method PruneDirnames(parts: seq<string>, depth: nat, dirnames: seq<string>) returns (kept: seq<string>)
    ensures kept == Pruned(parts, depth, dirnames)
  {
    kept := [];
    var i := |dirnames|;
    while i > 0
      invariant 0 <= i <= |dirnames|
      invariant kept == Pruned(parts, depth, dirnames[i..])
    {
      i := i - 1;
      assert dirnames[i..][1..] == dirnames[i + 1..];
      if Survives(parts, depth, dirnames[i]) {
        kept := [dirnames[i]] + kept;
      }
    }
    assert dirnames[0..] == dirnames;
  }

  /** The file loop of one directory at the request's depth. */
  method MatchFiles(dir: seq<string>, filenames: seq<string>, last: string) returns (found: seq<string>)
    ensures forall c :: c in found <==> exists f :: f in filenames && FileMatches(f, last) && c == Join(dir + [f], '/')
    ensures NoSeparator(dir, '/') && NoSeparator(filenames, '/') && Distinct(filenames) ==> Distinct(found)
  {
    found := [];
    var i := 0;
    while i < |filenames|
      invariant 0 <= i <= |filenames|
      invariant forall c :: c in found <==> exists f :: f in filenames[..i] && FileMatches(f, last) && c == Join(dir + [f], '/')
      invariant NoSeparator(dir, '/') && NoSeparator(filenames, '/') && Distinct(filenames) ==> Distinct(found)
    {
      assert filenames[..i + 1] == filenames[..i] + [filenames[i]];
      if FileMatches(filenames[i], last) {
        var c := Join(dir + [filenames[i]], '/');
        if NoSeparator(dir, '/') && NoSeparator(filenames, '/') && Distinct(filenames) {
          if c in found {
            var f :| f in filenames[..i] && FileMatches(f, last) && c == Join(dir + [f], '/');
            var k :| 0 <= k < i && filenames[k] == f;
            JoinInjective(dir, f, filenames[i]);
            assert false;
          }
          DistinctAppend(found, [c]);
        }
        found := found + [c];
      }
      i := i + 1;
    }
    assert filenames[..i] == filenames;
  }

  /** A directory is visited iff its parent is and the walk keeps it there. */
  lemma ChildReachable(fs: FileSystem, parts: seq<string>, dir: seq<string>, n: string)
    ensures Reachable(fs, parts, dir + [n]) <==>
            Reachable(fs, parts, dir) && n in Pruned(parts, |dir|, ListingOf(fs, dir).subdirs)
  {
    assert (dir + [n])[..|dir|] == dir;
  }

  /** The sub-directories of a visited directory the walk descends into. */
  method Subdirectories(fs: FileSystem, parts: seq<string>, dir: seq<string>) returns (children: seq<seq<string>>)
    requires Reachable(fs, parts, dir)
    ensures forall d :: d in children <==> |d| == |dir| + 1 && d[..|dir|] == dir && Reachable(fs, parts, d)
    ensures children != [] ==> |dir| < |parts|
    ensures Distinct(ListingOf(fs, dir).subdirs) ==> Distinct(children)
  {
    var kept := PruneDirnames(parts, |dir|, ListingOf(fs, dir).subdirs);
    children := seq(|kept|, k requires 0 <= k < |kept| => dir + [kept[k]]);
    if Distinct(ListingOf(fs, dir).subdirs) {
      PrunedDistinct(parts, |dir|, ListingOf(fs, dir).subdirs);
      ChildrenDistinct(dir, kept, children);
    }
    ChildrenExact(fs, parts, dir, kept, children);
  }

  /** Extending a visited directory by its kept names gives exactly its visited sub-directories. */
  lemma ChildrenExact(fs: FileSystem, parts: seq<string>, dir: seq<string>, kept: seq<string>, children: seq<seq<string>>)
    requires Reachable(fs, parts, dir)
    requires kept == Pruned(parts, |dir|, ListingOf(fs, dir).subdirs)
    requires |children| == |kept| && forall k :: 0 <= k < |kept| ==> children[k] == dir + [kept[k]]
    ensures forall d :: d in children <==> |d| == |dir| + 1 && d[..|dir|] == dir && Reachable(fs, parts, d)
    ensures children != [] ==> |dir| < |parts|
  {
    ChildrenComplete(fs, parts, dir, kept, children);
    forall d | d in children
      ensures |d| == |dir| + 1 && d[..|dir|] == dir && Reachable(fs, parts, d)
    {
      var k :| 0 <= k < |children| && children[k] == d;
      ChildReachable(fs, parts, dir, kept[k]);
      assert (dir + [kept[k]])[..|dir|] == dir;
    }
    if kept != [] {
      assert kept[0] in kept;
    }
  }

  /** Every visited sub-directory of a visited directory is one of its extensions by a kept name. */
  lemma ChildrenComplete(fs: FileSystem, parts: seq<string>, dir: seq<string>, kept: seq<string>,
                         children: seq<seq<string>>)
    requires kept == Pruned(parts, |dir|, ListingOf(fs, dir).subdirs)
    requires |children| == |kept| && forall k :: 0 <= k < |kept| ==> children[k] == dir + [kept[k]]
    ensures forall d :: |d| == |dir| + 1 && d[..|dir|] == dir && Reachable(fs, parts, d) ==> d in children
  {
    forall d | |d| == |dir| + 1 && d[..|dir|] == dir && Reachable(fs, parts, d)
      ensures d in children
    {
      var n := d[|dir|];
      assert d == dir + [n];
      ChildReachable(fs, parts, dir, n);
      var k :| 0 <= k < |kept| && kept[k] == n;
      assert children[k] == d;
    }
  }

  /** Extending one directory by distinct names gives distinct directories. */
  lemma ChildrenDistinct(dir: seq<string>, kept: seq<string>, children: seq<seq<string>>)
    requires Distinct(kept)
    requires |children| == |kept| && forall k :: 0 <= k < |kept| ==> children[k] == dir + [kept[k]]
    ensures Distinct(children)
  {
    forall i, j | 0 <= i < |children| && 0 <= j < |children| && i != j
      ensures children[i] != children[j]
    {
      assert children[i][|dir|] == kept[i] && children[j][|dir|] == kept[j];
    }
  }

  /** The candidates a visited directory at the request's depth contributes. */
  method DirectoryCandidates(fs: FileSystem, parts: seq<string>, dir: seq<string>) returns (found: seq<string>)
    requires WellFormed(fs) && |parts| > 0
    requires Reachable(fs, parts, dir) && |dir| == |parts| - 1
    ensures forall c :: c in found <==> IsCandidatePath(fs, parts, c) && DirOf(c) == dir
    ensures Distinct(found)
  {
    var files := ListingOf(fs, dir).files;
    ReachableWithinRequest(fs, parts, dir);
    ListingWellFormed(fs, dir);
    found := MatchFiles(dir, files, parts[|parts| - 1]);
    forall c | c in found
      ensures IsCandidatePath(fs, parts, c) && DirOf(c) == dir
    {
      var f :| f in files && FileMatches(f, parts[|parts| - 1]) && c == Join(dir + [f], '/');
      CandidateJoin(fs, parts, dir, f);
    }
    forall c | IsCandidatePath(fs, parts, c) && DirOf(c) == dir
      ensures c in found
    {
      JoinDirOf(c);
    }
  }

  /** One step of the walk: the kept sub-directories of `dir` and, at the request's depth, its candidates. */
  method VisitDirectory(fs: FileSystem, parts: seq<string>, dir: seq<string>)
    returns (children: seq<seq<string>>, found: seq<string>)
    requires WellFormed(fs) && |parts| > 0
    requires Reachable(fs, parts, dir)
    ensures forall d :: d in children <==> |d| == |dir| + 1 && d[..|dir|] == dir && Reachable(fs, parts, d)
    ensures children != [] ==> |dir| < |parts|
    ensures forall c :: c in found <==> |dir| == |parts| - 1 && IsCandidatePath(fs, parts, c) && DirOf(c) == dir
    ensures Distinct(children) && Distinct(found)
  {
    ListingWellFormed(fs, dir);
    children := Subdirectories(fs, parts, dir);
    found := [];
    if |dir| == |parts| - 1 {
      found := DirectoryCandidates(fs, parts, dir);
    }
  }

  /** One level of the walk: every directory of `level`, in order. */
  method VisitLevel(fs: FileSystem, parts: seq<string>, depth: nat, level: seq<seq<string>>)
    returns (next: seq<seq<string>>, found: seq<string>)
    requires WellFormed(fs) && |parts| > 0
    requires forall d :: d in level <==> |d| == depth && Reachable(fs, parts, d)
    requires Distinct(level)
    ensures forall d :: d in next <==> |d| == depth + 1 && Reachable(fs, parts, d)
    ensures next != [] ==> depth < |parts|
    ensures forall c :: c in found <==> |parts| - 1 == depth && IsCandidatePath(fs, parts, c)
    ensures Distinct(next) && Distinct(found)
  {
    next := [];
    found := [];
    ghost var done: seq<seq<string>> := [];
    var i := 0;
    while i < |level|
      invariant 0 <= i <= |level| && |done| == i
      invariant forall j :: 0 <= j < i ==> done[j] == level[j]
      invariant forall d :: d in next <==> |d| == depth + 1 && Reachable(fs, parts, d) && d[..depth] in done
      invariant forall c :: c in found <==> |parts| - 1 == depth && IsCandidatePath(fs, parts, c) && DirOf(c) in done
      invariant next != [] ==> depth < |parts|
      invariant Distinct(next) && Distinct(found)
    {
      NotYetVisited(level, done, i);
      next, found := VisitInto(fs, parts, depth, done, level[i], next, found);
      done := done + [level[i]];
      i := i + 1;
    }
    LevelComplete(fs, parts, depth, level, done, next, found);
  }

  /**
    One directory of a level: its kept sub-directories extend the next
    level, and its candidates (at the request's depth) the candidates.
   */
  method VisitInto(fs: FileSystem, parts: seq<string>, depth: nat, ghost done: seq<seq<string>>, dir: seq<string>,
                   next: seq<seq<string>>, found: seq<string>)
    returns (next': seq<seq<string>>, found': seq<string>)
    requires WellFormed(fs) && |parts| > 0
    requires |dir| == depth && Reachable(fs, parts, dir)
    requires forall d :: d in next <==> |d| == depth + 1 && Reachable(fs, parts, d) && d[..depth] in done
    requires forall c :: c in found <==> |parts| - 1 == depth && IsCandidatePath(fs, parts, c) && DirOf(c) in done
    requires next != [] ==> depth < |parts|
    requires Distinct(next) && Distinct(found) && dir !in done
    ensures forall d :: d in next' <==> |d| == depth + 1 && Reachable(fs, parts, d) && d[..depth] in done + [dir]
    ensures forall c :: c in found' <==>
              |parts| - 1 == depth && IsCandidatePath(fs, parts, c) && DirOf(c) in done + [dir]
    ensures next' != [] ==> depth < |parts|
    ensures Distinct(next') && Distinct(found')
  {
    var children, matched := VisitDirectory(fs, parts, dir);
    ChildrenStep(fs, parts, depth, done, dir, next, children);
    FoundStep(fs, parts, depth, done, dir, found, matched);
    DistinctAppend(next, children);
    DistinctAppend(found, matched);
    next' := next + children;
    found' := found + matched;
  }

  /** A level without repeats has not visited its next directory yet. */
  lemma NotYetVisited(level: seq<seq<string>>, done: seq<seq<string>>, i: nat)
    requires Distinct(level) && i < |level|
    requires |done| == i && forall j :: 0 <= j < i ==> done[j] == level[j]
    ensures level[i] !in done
  {
    forall j | 0 <= j < i
      ensures done[j] != level[i]
    {
      assert done[j] == level[j];
    }
  }

  /** Visiting one more directory of a level extends the next level by its children. */
  lemma ChildrenStep(fs: FileSystem, parts: seq<string>, depth: nat, done: seq<seq<string>>, dir: seq<string>,
                     next: seq<seq<string>>, children: seq<seq<string>>)
    requires |dir| == depth
    requires forall d :: d in next <==> |d| == depth + 1 && Reachable(fs, parts, d) && d[..depth] in done
    requires forall d :: d in children <==> |d| == |dir| + 1 && d[..|dir|] == dir && Reachable(fs, parts, d)
    ensures forall d :: d in next + children <==>
              |d| == depth + 1 && Reachable(fs, parts, d) && d[..depth] in done + [dir]
  {
  }

  /** Visiting one more directory of a level extends the candidates by its own. */
  lemma FoundStep(fs: FileSystem, parts: seq<string>, depth: nat, done: seq<seq<string>>, dir: seq<string>,
                  found: seq<string>, matched: seq<string>)
    requires |dir| == depth
    requires forall c :: c in found <==> |parts| - 1 == depth && IsCandidatePath(fs, parts, c) && DirOf(c) in done
    requires forall c :: c in matched <==> |dir| == |parts| - 1 && IsCandidatePath(fs, parts, c) && DirOf(c) == dir
    ensures forall c :: c in found + matched <==>
              |parts| - 1 == depth && IsCandidatePath(fs, parts, c) && DirOf(c) in done + [dir]
  {
  }

  /** Once the whole level is visited, the next level and the candidates are complete. */
  lemma LevelComplete(fs: FileSystem, parts: seq<string>, depth: nat, level: seq<seq<string>>, done: seq<seq<string>>,
                      next: seq<seq<string>>, found: seq<string>)
    requires forall d :: d in level <==> |d| == depth && Reachable(fs, parts, d)
    requires |done| == |level| && forall j :: 0 <= j < |level| ==> done[j] == level[j]
    requires forall d :: d in next <==> |d| == depth + 1 && Reachable(fs, parts, d) && d[..depth] in done
    requires forall c :: c in found <==> |parts| - 1 == depth && IsCandidatePath(fs, parts, c) && DirOf(c) in done
    ensures forall d :: d in next <==> |d| == depth + 1 && Reachable(fs, parts, d)
    ensures forall c :: c in found <==> |parts| - 1 == depth && IsCandidatePath(fs, parts, c)
  {
    assert done == level;
    forall d | |d| == depth + 1 && Reachable(fs, parts, d)
      ensures d[..depth] in level
    {
      assert d[..|d| - 1] == d[..depth];
    }
  }

  /**
    The walk, level by level: every visited directory is listed once, its
    sub-directories pruned, and the matching files of the directories at
    the request's depth collected.
   */
  method CollectCandidates(fs: FileSystem, parts: seq<string>) returns (cands: seq<string>)
    requires WellFormed(fs) && |parts| > 0
    ensures forall c :: c in cands <==> IsCandidatePath(fs, parts, c)
    ensures Distinct(cands)
  {
    cands := [];
    var level: seq<seq<string>> := [[]];
    var depth := 0;
    while level != []
      invariant level != [] ==> depth <= |parts|
      invariant forall d :: d in level <==> |d| == depth && Reachable(fs, parts, d)
      invariant forall c :: c in cands <==> IsCandidatePath(fs, parts, c) && |parts| - 1 < depth
      invariant Distinct(level) && Distinct(cands)
      decreases |parts| + 1 - depth
    {
      var next, found := VisitLevel(fs, parts, depth, level);
      DistinctAppend(cands, found);
      cands := cands + found;
      level := next;
      depth := depth + 1;
    }
    CandidatesBelowLevel(fs, parts, depth);
  }

  /** When no directory is visited at `depth`, every candidate lies above it. */
  lemma CandidatesBelowLevel(fs: FileSystem, parts: seq<string>, depth: nat)
    requires forall d :: !(|d| == depth && Reachable(fs, parts, d))
    ensures forall c :: IsCandidatePath(fs, parts, c) ==> |parts| - 1 < depth
  {
    forall c | IsCandidatePath(fs, parts, c)
      ensures |parts| - 1 < depth
    {
      var dir := DirOf(c);
      ReachablePrefix(fs, parts, dir, Min(depth, |dir|));
    }
  }

  // ---------------------------------------------------------------------
  // Scoring

  /** One aligned pair: a trailing `.ks` is ignored; equal scores 1, an empty request segment against `index` 2. */
  function SegmentScore(pathpart: string, candidatepart: string): (s: nat)
    ensures s <= 2
  {
    var c := if EndsWith(candidatepart, ".ks") then candidatepart[..|candidatepart| - 3] else candidatepart;
    if pathpart == c then 1
    else if pathpart == "" && c == "index" then 2
    else 0
  }

  /** The score of the first `k` aligned pairs. */
  function ScorePrefix(pparts: seq<string>, cparts: seq<string>, k: nat): (s: nat)
    requires k <= |pparts| && k <= |cparts|
    ensures s <= 2 * k
  {
    if k == 0 then 0 else ScorePrefix(pparts, cparts, k - 1) + SegmentScore(pparts[k - 1], cparts[k - 1])
  }

  function Min(a: nat, b: nat): nat {
    if a <= b then a else b
  }

  /** The score of a candidate's segments against the request's: the pairs `izip` forms, summed. */
  function Score(pparts: seq<string>, cparts: seq<string>): (s: nat)
    ensures s <= 2 * Min(|pparts|, |cparts|)
  {
    ScorePrefix(pparts, cparts, Min(|pparts|, |cparts|))
  }

  function CandidateScore(parts: seq<string>, c: string): nat {
    Score(parts, Split(c, '/'))
  }

  /** Pairs past the shorter list never count. */
  lemma {:induction false} ScoreIgnoresTail(pparts: seq<string>, cparts: seq<string>, extra: seq<string>, k: nat)
    requires k <= |pparts| && k <= |cparts|
    ensures ScorePrefix(pparts, cparts + extra, k) == ScorePrefix(pparts, cparts, k)
  {
    if k > 0 {
      ScoreIgnoresTail(pparts, cparts, extra, k - 1);
      assert (cparts + extra)[k - 1] == cparts[k - 1];
    }
  }

  /** `_score_candidates`: one score per candidate, in candidate order. */
  method ScoreCandidates(path: string, candidates: seq<string>) returns (scores: seq<nat>)
    ensures |scores| == |candidates|
    ensures forall i :: 0 <= i < |candidates| ==> scores[i] == CandidateScore(Split(path, '/'), candidates[i])
  {
    var pparts := Split(path, '/');
    scores := [];
    var i := 0;
    while i < |candidates|
      invariant 0 <= i <= |candidates|
      invariant |scores| == i
      invariant forall j :: 0 <= j < i ==> scores[j] == CandidateScore(pparts, candidates[j])
    {
      var score := ScoreCandidate(pparts, Split(candidates[i], '/'));
      scores := scores + [score];
      i := i + 1;
    }
  }

  /** The inner loop of the scoring: one candidate's aligned segment pairs, summed. */
  method ScoreCandidate(pparts: seq<string>, cparts: seq<string>) returns (score: nat)
    ensures score == Score(pparts, cparts)
  {
    score := 0;
    var k := 0;
    var n := Min(|pparts|, |cparts|);
    while k < n
      invariant 0 <= k <= n
      invariant score == ScorePrefix(pparts, cparts, k)
    {
      var candidatepart := cparts[k];
      if EndsWith(candidatepart, ".ks") {
        candidatepart := candidatepart[..|candidatepart| - 3];
      }
      if pparts[k] == candidatepart {
        score := score + 1;
      } else if pparts[k] == "" && candidatepart == "index" {
        score := score + 2;
      }
      k := k + 1;
    }
  }

  /** The scoring example `foo` against `%x.ks` and `foo.ks`. */
  lemma ScoreExampleFoo()
    ensures CandidateScore(["foo"], "%x.ks") == 0
    ensures CandidateScore(["foo"], "foo.ks") == 1
  {
    SplitPlain("%x.ks", '/');
    assert "%x.ks"[..2] == "%x";
    assert SegmentScore("foo", "%x.ks") == 0;
    SplitPlain("foo.ks", '/');
    assert "foo.ks"[..3] == "foo";
    assert SegmentScore("foo", "foo.ks") == 1;
  }

  /** The request `foo/` scores `%y/%x.ks` at 0. */
  lemma ScoreExampleWildcards()
    ensures CandidateScore(["foo", ""], "%y/%x.ks") == 0
  {
    assert "%y/%x.ks" == "%y" + "/" + "%x.ks";
    TwoSegments("%y", "%x.ks");
    assert SegmentScore("", "%x.ks") == 0;
    assert SegmentScore("foo", "%y") == 0;
  }

  /** The request `foo/` scores `foo/%x.ks` at 1. */
  lemma ScoreExampleLiteral()
    ensures CandidateScore(["foo", ""], "foo/%x.ks") == 1
  {
    assert "foo/%x.ks" == "foo" + "/" + "%x.ks";
    TwoSegments("foo", "%x.ks");
    assert SegmentScore("", "%x.ks") == 0;
    assert SegmentScore("foo", "foo") == 1;
  }

  /** The request `foo/` scores `%y/index.ks` at 2. */
  lemma ScoreExampleIndex()
    ensures CandidateScore(["foo", ""], "%y/index.ks") == 2
  {
    assert "%y/index.ks" == "%y" + "/" + "index.ks";
    TwoSegments("%y", "index.ks");
    assert SegmentScore("foo", "%y") == 0;
    assert "index.ks"[..5] == "index";
    assert SegmentScore("", "index.ks") == 2;
    assert ScorePrefix(["foo", ""], ["%y", "index.ks"], 1) == 0;
    assert Score(["foo", ""], ["%y", "index.ks"]) == 2;
  }

  lemma TwoSegments(a: string, b: string)
    requires '/' !in a && '/' !in b
    ensures Split(a + "/" + b, '/') == [a, b]
  {
    SplitCons(a, '/', b);
    SplitPlain(b, '/');
  }

  /** The request `foo/` splits into `foo` and an empty last segment. */
  lemma SplitTrailingSlash()
    ensures Split("foo/", '/') == ["foo", ""]
  {
    SplitCons("foo", '/', "");
    assert "foo/" == "foo" + ['/'] + "";
  }

  // ---------------------------------------------------------------------
  // Choosing the winner

  /** `max(scores)` */
  function Max(scores: seq<nat>): (m: nat)
    requires |scores| > 0
    ensures m in scores
    ensures forall i :: 0 <= i < |scores| ==> scores[i] <= m
  {
    if |scores| == 1 then scores[0]
    else
      var rest := Max(scores[1..]);
      assert forall i :: 1 <= i < |scores| ==> scores[i] == scores[1..][i - 1];
      if scores[0] >= rest then scores[0] else rest
  }

  /** The candidates whose score is `m`, in candidate order. */
  function Tied(cands: seq<string>, scores: seq<nat>, m: nat): (t: seq<string>)
    requires |scores| == |cands|
    ensures |t| <= |cands|
    ensures forall c :: c in t <==> exists i :: 0 <= i < |cands| && cands[i] == c && scores[i] == m
  {
    if cands == [] then []
    else
      var rest := Tied(cands[1..], scores[1..], m);
      assert forall i :: 1 <= i < |cands| ==> cands[i] == cands[1..][i - 1] && scores[i] == scores[1..][i - 1];
      if scores[0] == m then [cands[0]] + rest else rest
  }

  /** Filtering a candidate list without repeats leaves one without repeats. */
  lemma {:induction false} TiedDistinct(cands: seq<string>, scores: seq<nat>, m: nat)
    requires |scores| == |cands| && Distinct(cands)
    ensures Distinct(Tied(cands, scores, m))
  {
    if cands != [] {
      assert Distinct(cands[1..]) by {
        forall i, j | 0 <= i < |cands[1..]| && 0 <= j < |cands[1..]| && i != j
          ensures cands[1..][i] != cands[1..][j]
        {
          assert cands[1..][i] == cands[i + 1] && cands[1..][j] == cands[j + 1];
        }
      }
      TiedDistinct(cands[1..], scores[1..], m);
      forall k | 0 <= k < |cands[1..]|
        ensures cands[1..][k] != cands[0]
      {
        assert cands[1..][k] == cands[k + 1];
      }
      DistinctAppend([cands[0]], Tied(cands[1..], scores[1..], m));
    }
  }

  /** The first element after `sort()`: the alphabetically least. */
  function Least(t: seq<string>): (w: string)
    requires |t| > 0
    ensures w in t
    ensures forall c :: c in t ==> LexLe(w, c)
  {
    if |t| == 1 then
      LexLeTotal(t[0], t[0]);
      t[0]
    else
      var rest := Least(t[1..]);
      LexLeTotal(t[0], rest);
      if LexLe(t[0], rest) then
        LexLeTotal(t[0], t[0]);
        assert forall c :: c in t[1..] ==> LexLe(t[0], c) by {
          forall c | c in t[1..] ensures LexLe(t[0], c) {
            LexLeTransitive(t[0], rest, c);
          }
        }
        t[0]
      else
        rest
  }

  /**
    The path `_find` settles on: a candidate with the highest score, and
    among the highest the alphabetically least.
   */
  ghost predicate IsWinner(fs: FileSystem, parts: seq<string>, w: string) {
    IsCandidatePath(fs, parts, w) &&
    forall c :: IsCandidatePath(fs, parts, c) ==>
      CandidateScore(parts, c) < CandidateScore(parts, w) ||
      (CandidateScore(parts, c) == CandidateScore(parts, w) && LexLe(w, c))
  }

  /** There is at most one winner, so the outcome does not depend on the walk's order. */
  lemma WinnerUnique(fs: FileSystem, parts: seq<string>, w1: string, w2: string)
    requires IsWinner(fs, parts, w1) && IsWinner(fs, parts, w2)
    ensures w1 == w2
  {
    LexLeAntisymmetric(w1, w2);
  }

  /**
    The least of the best-scoring candidates beats or ties every candidate,
    and wins every tie; another candidate with its score makes the tied
    list longer than one.
   */
  lemma LeastOfTiedIsBest(cands: seq<string>, scores: seq<nat>)
    requires |cands| > 0 && |scores| == |cands|
    ensures |Tied(cands, scores, Max(scores))| > 0
    ensures var w := Least(Tied(cands, scores, Max(scores)));
            exists i :: 0 <= i < |cands| && cands[i] == w && scores[i] == Max(scores)
    ensures var w := Least(Tied(cands, scores, Max(scores)));
            forall j :: 0 <= j < |cands| ==>
              scores[j] < Max(scores) || (scores[j] == Max(scores) && LexLe(w, cands[j]))
    ensures var t := Tied(cands, scores, Max(scores));
            forall j :: 0 <= j < |cands| && cands[j] != Least(t) && scores[j] == Max(scores) ==> |t| > 1
  {
    var m := Max(scores);
    var i :| 0 <= i < |scores| && scores[i] == m;
    var t := Tied(cands, scores, m);
    assert cands[i] in t;
    var w := Least(t);
    forall j | 0 <= j < |cands|
      ensures scores[j] < m || (scores[j] == m && LexLe(w, cands[j]))
      ensures cands[j] != w && scores[j] == m ==> |t| > 1
    {
      if scores[j] == m {
        assert cands[j] in t;
        if |t| == 1 {
          assert t == [t[0]];
        }
      }
    }
  }

  /**
    Over a candidate list without repeats, more than one tied candidate
    means a different candidate scores as high as the winner.
   */
  lemma TiedHasRival(fs: FileSystem, parts: seq<string>, cands: seq<string>, scores: seq<nat>)
    requires |cands| > 0 && |scores| == |cands| && Distinct(cands)
    requires forall c :: c in cands <==> IsCandidatePath(fs, parts, c)
    requires forall i :: 0 <= i < |cands| ==> scores[i] == CandidateScore(parts, cands[i])
    requires |Tied(cands, scores, Max(scores))| > 1
    ensures exists c :: IsCandidatePath(fs, parts, c) && c != Least(Tied(cands, scores, Max(scores))) &&
                        CandidateScore(parts, c) == CandidateScore(parts, Least(Tied(cands, scores, Max(scores))))
  {
    var t := Tied(cands, scores, Max(scores));
    TiedDistinct(cands, scores, Max(scores));
    var w := Least(t);
    var c := if t[0] != w then t[0] else t[1];
    assert t[0] != t[1];
    assert c in t && c != w;
    var i :| 0 <= i < |cands| && cands[i] == c && scores[i] == Max(scores);
    var j :| 0 <= j < |cands| && cands[j] == w && scores[j] == Max(scores);
    assert IsCandidatePath(fs, parts, c);
  }

  /**
    Whatever order the walk lists the candidates in, the least of the
    best-scoring ones is the winner, and any other candidate sharing its
    score makes the tied list longer than one.
   */
  lemma LeastOfTiedWins(fs: FileSystem, parts: seq<string>, cands: seq<string>, scores: seq<nat>)
    requires |cands| > 0 && |scores| == |cands|
    requires forall c :: c in cands <==> IsCandidatePath(fs, parts, c)
    requires forall i :: 0 <= i < |cands| ==> scores[i] == CandidateScore(parts, cands[i])
    ensures |Tied(cands, scores, Max(scores))| > 0
    ensures IsWinner(fs, parts, Least(Tied(cands, scores, Max(scores))))
    ensures forall c :: IsCandidatePath(fs, parts, c) && c != Least(Tied(cands, scores, Max(scores))) &&
                        CandidateScore(parts, c) == CandidateScore(parts, Least(Tied(cands, scores, Max(scores)))) ==>
                          |Tied(cands, scores, Max(scores))| > 1
  {
    LeastOfTiedIsBest(cands, scores);
    var t := Tied(cands, scores, Max(scores));
    var w := Least(t);
    var i :| 0 <= i < |cands| && cands[i] == w && scores[i] == Max(scores);
    forall c | IsCandidatePath(fs, parts, c)
      ensures CandidateScore(parts, c) < CandidateScore(parts, w) ||
              (CandidateScore(parts, c) == CandidateScore(parts, w) && LexLe(w, c))
      ensures c != w && CandidateScore(parts, c) == CandidateScore(parts, w) ==> |t| > 1
    {
      var j :| 0 <= j < |cands| && cands[j] == c;
    }
  }

  // ---------------------------------------------------------------------
  // URL parameters

  /** A wildcard segment's parameter name: without its `%` and a trailing `.ks`. */
  function ParamName(seg: string): (name: string)
    requires IsWildcard(seg)
    ensures EndsWith(seg, ".ks") ==> seg == "%" + name + ".ks"
    ensures !EndsWith(seg, ".ks") ==> seg == "%" + name
  {
    var name := seg[1..];
    assert seg == "%" + name;
    assert EndsWith(seg, ".ks") ==> EndsWith(name, ".ks") by {
      if EndsWith(seg, ".ks") {
        assert seg[0] == '%' && seg[|seg| - 3] == '.';
        assert name[|name| - 3..] == seg[|seg| - 3..];
      }
    }
    if EndsWith(name, ".ks") then
      assert name == name[..|name| - 3] + ".ks";
      name[..|name| - 3]
    else
      name
  }

  /** The parameters bound by the first `k` aligned pairs, a later pair overwriting an earlier one of the same name. */
  function UrlParams(pparts: seq<string>, wparts: seq<string>, k: nat): map<string, string>
    requires k <= |pparts| && k <= |wparts|
  {
    if k == 0 then map[]
    else
      var m := UrlParams(pparts, wparts, k - 1);
      if IsWildcard(wparts[k - 1]) then m[ParamName(wparts[k - 1]) := pparts[k - 1]] else m
  }

  /** A name is bound iff some aligned wildcard segment carries it. */
  lemma {:induction false} UrlParamsKeys(pparts: seq<string>, wparts: seq<string>, k: nat)
    requires k <= |pparts| && k <= |wparts|
    ensures forall name :: name in UrlParams(pparts, wparts, k) <==>
              exists i :: 0 <= i < k && IsWildcard(wparts[i]) && ParamName(wparts[i]) == name
  {
    if k > 0 {
      UrlParamsKeys(pparts, wparts, k - 1);
    }
  }

  /** Each name is bound to the request segment aligned with its last wildcard. */
  lemma {:induction false} UrlParamsLastWins(pparts: seq<string>, wparts: seq<string>, k: nat, i: nat)
    requires k <= |pparts| && k <= |wparts|
    requires i < k && IsWildcard(wparts[i])
    requires forall j :: i < j < k && IsWildcard(wparts[j]) ==> ParamName(wparts[j]) != ParamName(wparts[i])
    ensures ParamName(wparts[i]) in UrlParams(pparts, wparts, k)
    ensures UrlParams(pparts, wparts, k)[ParamName(wparts[i])] == pparts[i]
  {
    if i < k - 1 {
      UrlParamsLastWins(pparts, wparts, k - 1, i);
    }
  }

  /** The request `/anydir/pagename` matched by `%wildcard/%wildcard2.ks` binds both names. */
  lemma UrlParamsExample()
    ensures UrlParams(["anydir", "pagename"], ["%wildcard", "%wildcard2.ks"], 2) ==
            map["wildcard" := "anydir", "wildcard2" := "pagename"]
  {
    assert "%wildcard2.ks"[1..] == "wildcard2.ks";
    assert "wildcard2.ks"[..9] == "wildcard2";
  }

  /** The URL-parameter loop over the aligned request and winner segments. */
  method BindUrlParams(path: string, winner: string) returns (urlparams: map<string, string>)
    ensures var pparts, wparts := Split(path, '/'), Split(winner, '/');
            urlparams == UrlParams(pparts, wparts, Min(|pparts|, |wparts|))
  {
    var pparts := Split(path, '/');
    var wparts := Split(winner, '/');
    var n := Min(|pparts|, |wparts|);
    urlparams := map[];
    var k := 0;
    while k < n
      invariant 0 <= k <= n
      invariant urlparams == UrlParams(pparts, wparts, k)
    {
      var urlpart := wparts[k];
      if IsWildcard(urlpart) {
        urlparams := urlparams[ParamName(urlpart) := pparts[k]];
      }
      k := k + 1;
    }
  }

  /**
    The walk, the scoring and the tie-break of `_find` for the normalised
    path `p`: no winner iff there is no candidate; otherwise the unique
    winner, and a warning exactly when another candidate ties with it.
   */
  method ChooseWinner(fs: FileSystem, p: string) returns (winner: Option<string>, warned: bool)
    requires WellFormed(fs)
    ensures winner.None? <==> forall c :: !IsCandidatePath(fs, Split(p, '/'), c)
    ensures winner.None? ==> !warned
    ensures winner.Some? ==> IsWinner(fs, Split(p, '/'), winner.value) &&
                             |Split(winner.value, '/')| == |Split(p, '/')|
    ensures forall w :: IsWinner(fs, Split(p, '/'), w) ==> winner == Some(w)
    ensures forall w, c ::
              (IsWinner(fs, Split(p, '/'), w) && IsCandidatePath(fs, Split(p, '/'), c) && c != w &&
               CandidateScore(Split(p, '/'), c) == CandidateScore(Split(p, '/'), w)) ==> warned
    ensures warned ==> (winner.Some? &&
                        exists c :: IsCandidatePath(fs, Split(p, '/'), c) && c != winner.value &&
                                    CandidateScore(Split(p, '/'), c) == CandidateScore(Split(p, '/'), winner.value))
  {
    var parts := Split(p, '/');
    var candidates := CollectCandidates(fs, parts);
    if candidates == [] {
      return None, false;
    }
    var scores := ScoreCandidates(p, candidates);
    var maxscore := Max(scores);
    var tied := Tied(candidates, scores, maxscore);
    LeastOfTiedWins(fs, parts, candidates, scores);
    warned := |tied| > 1;
    if warned {
      TiedHasRival(fs, parts, candidates, scores);
    }
    var w := Least(tied);
    forall v | IsWinner(fs, parts, v)
      ensures v == w
    {
      WinnerUnique(fs, parts, v, w);
    }
    winner := Some(w);
  }

  // ---------------------------------------------------------------------
  // The application

  /** What `_find` returns: None, an open static file, or a Template. */
  datatype Found = NoMatch | StaticFile(path: string) | TemplateFound(template: Template)

  class Keystone {
    const engine: RenderEngine

    ghost predicate Valid()
      reads engine, engine.templates.Values
    {
      engine.Valid()
    }

    constructor ()
      ensures Valid() && fresh(engine) && engine.templates == map[]
    {
      engine := new RenderEngine();
    }

    /**
      How the winner `w` is served: a path not ending in `.ks` is the static
      file, with the cache unchanged; a `.ks` path is fetched through the
      cache, giving the fetch's error or else a new copy of the refreshed
      entry carrying the URL parameters of the aligned segments.
     */
    twostate predicate Served(fs: FileSystem, parts: seq<string>, w: string, new r: Result<Found, Error>)
      reads engine, engine.templates.Values
      reads if r.Ok? && r.value.TemplateFound? then {r.value.template} else {}
    {
      if !EndsWith(w, ".ks") then r == Ok(StaticFile(w)) && engine.templates == old(engine.templates)
      else
        engine.Refreshed(fs, w, ErrorOf(r)) &&
        (w in fs.files && Sectioned(fs.files[w].lines).Ok? ==> r.Ok?) &&
        (r.Ok? ==>
           r.value.TemplateFound? && fresh(r.value.template) && w in engine.templates &&
           r.value.template != engine.templates[w] &&
           r.value.template.view == engine.templates[w].view &&
           r.value.template.body == engine.templates[w].body &&
           r.value.template.mtime == engine.templates[w].mtime &&
           r.value.template.name == Some(w) &&
           r.value.template.urlparams == UrlParams(parts, Split(w, '/'), Min(|parts|, |Split(w, '/')|)))
    }

    /**
      The outcome of the parameterised search for request segments `parts`:
      nothing iff there is no candidate, with the cache unchanged; otherwise
      the winner, served as `Served` says; and a warning exactly when another
      candidate ties with the winner.
     */
    twostate predicate Resolves(fs: FileSystem, parts: seq<string>, new r: Result<Found, Error>, warned: bool)
      reads engine, engine.templates.Values
      reads if r.Ok? && r.value.TemplateFound? then {r.value.template} else {}
    {
      ((r == Ok(NoMatch)) <==> (forall c :: !IsCandidatePath(fs, parts, c))) &&
      (r == Ok(NoMatch) ==> engine.templates == old(engine.templates)) &&
      ((exists c :: IsCandidatePath(fs, parts, c)) ==> exists w :: IsWinner(fs, parts, w)) &&
      (forall w :: IsWinner(fs, parts, w) ==> Served(fs, parts, w, r)) &&
      (forall w, c ::
         (IsWinner(fs, parts, w) && IsCandidatePath(fs, parts, c) && c != w &&
          CandidateScore(parts, c) == CandidateScore(parts, w)) ==> warned) &&
      (warned ==> exists w, c ::
         IsWinner(fs, parts, w) && IsCandidatePath(fs, parts, c) && c != w &&
         CandidateScore(parts, c) == CandidateScore(parts, w))
    }

    /**
      `_find`: resolve a request path against the application directory.
      `warned` says whether the multiple-match warning was issued.
     */
    method Find(fs: FileSystem, path: string) returns (r: Result<Found, Error>, warned: bool)
      requires WellFormed(fs) && Valid()
      modifies engine
      ensures Valid()
      // hidden extensions: nothing, whatever the tree holds
      ensures Hidden(path) ==> r == Ok(NoMatch) && !warned && engine.templates == old(engine.templates)
      // the exact static file, unless private
      ensures (!Hidden(path) && Normalize(path) in fs.files) ==>
                r == Ok(if IsPrivate(Normalize(path)) then NoMatch else StaticFile(Normalize(path))) &&
                !warned && engine.templates == old(engine.templates)
      // the exact template: fetched through the cache, the cached entry itself
      ensures (!Hidden(path) && Normalize(path) !in fs.files && Normalize(path) + ".ks" in fs.files) ==>
                var name := Normalize(path) + ".ks";
                !warned && engine.Refreshed(fs, name, ErrorOf(r)) &&
                (Sectioned(fs.files[name].lines).Ok? ==> r.Ok?) &&
                (r.Ok? ==> name in engine.templates && r.value == TemplateFound(engine.templates[name]) &&
                           r.value.template.urlparams == map[])
      // the parameterised search
      ensures (!Hidden(path) && Normalize(path) !in fs.files && Normalize(path) + ".ks" !in fs.files) ==>
                Resolves(fs, Split(Normalize(path), '/'), r, warned)
    {
      if Hidden(path) {
        return Ok(NoMatch), false;
      }
      var p := Normalize(path);
      if p in fs.files {
        if IsPrivate(p) {
          return Ok(NoMatch), false;
        }
        return Ok(StaticFile(p)), false;
      }
      if p + ".ks" in fs.files {
        var t := engine.GetTemplate(fs, p + ".ks");
        if t.Err? {
          return Err(t.error), false;
        }
        return Ok(TemplateFound(t.value)), false;
      }
      r, warned := FindByParameters(fs, p);
    }

    /** The parameterised search of `_find` for the normalised path `p`. */
    method FindByParameters(fs: FileSystem, p: string) returns (r: Result<Found, Error>, warned: bool)
      requires WellFormed(fs) && Valid()
      modifies engine
      ensures Valid()
      ensures Resolves(fs, Split(p, '/'), r, warned)
    {
      var winner;
      winner, warned := ChooseWinner(fs, p);
      if winner.None? {
        assert forall c :: !IsCandidatePath(fs, Split(p, '/'), c);
        return Ok(NoMatch), warned;
      }
      var name := winner.value;
      if !EndsWith(name, ".ks") {
        return Ok(StaticFile(name)), warned;
      }
      var urlparams := BindUrlParams(p, name);
      r := Instantiate(fs, name, urlparams);
    }
    /**
      `get_template(name).copy()` with `urlparams` set: the fetch's error, or
      a new copy of the refreshed entry carrying `urlparams`.
     */
    method Instantiate(fs: FileSystem, name: string, urlparams: map<string, string>) returns (r: Result<Found, Error>)
      requires Valid()
      modifies engine
      ensures Valid()
      ensures engine.Refreshed(fs, name, ErrorOf(r))
      ensures r.Ok? ==>
                r.value.TemplateFound? && fresh(r.value.template) && name in engine.templates &&
                r.value.template != engine.templates[name] &&
                r.value.template.view == engine.templates[name].view &&
                r.value.template.body == engine.templates[name].body &&
                r.value.template.mtime == engine.templates[name].mtime &&
                r.value.template.name == Some(name) &&
                r.value.template.urlparams == urlparams
    {
      var t := engine.GetTemplate(fs, name);
      if t.Err? {
        return Err(t.error);
      }
      var c := t.value.Copy();
      c.urlparams := urlparams;
      r := Ok(TemplateFound(c));
    }
  }

  // ---------------------------------------------------------------------
  // The walk as written

  /**
    The request `/foo` against a tree whose wildcard directory `%w` has a
    sub-directory: the walk visits `%w` (depth 1, already past the single
    request segment) and the pruning loop as written then indexes past the
    request's segments.
   */
  lemma WalkAsWrittenRaises()
    ensures var fs := FileSystem(map[[] := Listing(["%w"], ["%page.ks"]), ["%w"] := Listing(["sub"], [])], map[]);
            Reachable(fs, ["foo"], ["%w"]) &&
            PrunedAsWritten(["foo"], 1, ListingOf(fs, ["%w"]).subdirs).None?
  {
    var fs := FileSystem(map[[] := Listing(["%w"], ["%page.ks"]), ["%w"] := Listing(["sub"], [])], map[]);
    assert ["%w"][..0] == [];
    assert "%w"[..1] == "%";
    assert ["%w"][..1] == ["%w"];
    assert "%w" in Pruned(["foo"], 0, ["%w"]);
  }
}
