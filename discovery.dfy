/** Entry-file discovery, `findUnityGamePath` / `findIndexHtml` of
    server.js:34-59: a depth-first search, at most five directory levels
    below the game root, for an `index.html` whose content names the Unity
    loader.

    Paths are sequences of segments relative to the game root. The search
    exists twice: `FindIndexHtml` as the source is written, where a nested
    hit comes back with its directory prefix doubled, and `FindFixed`, the
    evidently intended search that reports where the file is. The lemma
    `AsWrittenDoublesPrefix` relates the two. */
module Discovery {
  import opened Strings
  import opened Options
  import opened FileTree

  /** A call whose depth exceeds this returns not-found at once. */
  const MaxDepth: nat := 5
  const IndexName := "index.html"

  /** A file entry whose lower-cased name is `index.html`. */
  predicate IsCandidate(n: Node) {
    n.File? && ToLower(n.name) == IndexName
  }

  /** The content test of server.js:43. */
  predicate IsUnityPage(content: string) {
    Contains(content, "UnityLoader") || Contains(content, "createUnityInstance")
  }

  /** A directory entry the loop of server.js:47-54 descends into. */
  predicate IsVisibleDir(n: Node) {
    n.Dir? && !StartsWith(n.name, ".")
  }

  /** `items.find(...)` of server.js:39: the position of the first candidate. */
  function FirstCandidate(items: seq<Node>): (r: Option<nat>)
    ensures r.Some? ==> r.value < |items| && IsCandidate(items[r.value])
    ensures r.Some? ==> forall j :: 0 <= j < r.value ==> !IsCandidate(items[j])
    ensures r.None? <==> forall j :: 0 <= j < |items| ==> !IsCandidate(items[j])
  {
    if items == [] then None
    else if IsCandidate(items[0]) then Some(0)
    else match FirstCandidate(items[1..])
      case None => None
      case Some(k) => Some(k + 1)
  }

  /** The directory has a candidate, it was read, and it validates. */
  predicate AcceptsCandidate(items: seq<Node>) {
    var c := FirstCandidate(items);
    c.Some? && items[c.value].content.Some? && IsUnityPage(items[c.value].content.value)
  }

  /** The directory has no candidate, or reading its candidate succeeds. */
  predicate CandidateReadable(items: seq<Node>) {
    var c := FirstCandidate(items);
    c.None? || items[c.value].content.Some?
  }

  /** The name of the directory's candidate (original case). */
  function CandidateName(items: seq<Node>): (name: string)
    requires FirstCandidate(items).Some?
    ensures ToLower(name) == IndexName
  {
    items[FirstCandidate(items).value].name
  }

  // ---------------------------------------------------------------------
  // The search as written
  // ---------------------------------------------------------------------

  /** `findIndexHtml(dir, depth)`, where `dir` is the directory's path from
      the game root and `node` what listing it gives. A failed listing or a
      failed read of the candidate ends the `try` of server.js:37-55 and
      yields not-found. A hit returns `path.relative(gameDir, indexPath)`:
      the path from the game ROOT, not from `dir`. */
  function FindIndexHtml(node: Node, dir: seq<string>, depth: nat): (r: Option<seq<string>>)
    ensures r.Some? ==> |r.value| >= |dir| + 1
    decreases MaxDepth + 1 - depth, 1, 0
  {
    if depth > MaxDepth then None
    else match node
      case Dir(_, Some(items)) =>
        (match FirstCandidate(items)
         case Some(k) =>
           (match items[k].content
            case None => None
            case Some(text) =>
              if IsUnityPage(text) then Some(dir + [items[k].name])
              else ScanDirs(items, dir, depth))
         case None => ScanDirs(items, dir, depth))
      case _ => None
  }

  /** The `for…of` loop of server.js:47-54 over the listing `items` of
      `dir`: each visible subdirectory is searched at `depth + 1`, and the
      first hit is returned with the subdirectory's name prepended once more. */
  function ScanDirs(items: seq<Node>, dir: seq<string>, depth: nat): (r: Option<seq<string>>)
    requires depth <= MaxDepth
    ensures r.Some? ==> |r.value| >= |dir| + 3
    decreases MaxDepth + 1 - depth, 0, |items|
  {
    if items == [] then None
    else if IsVisibleDir(items[0]) then
      match FindIndexHtml(items[0], dir + [items[0].name], depth + 1)
      case Some(r) => Some([items[0].name] + r)
      case None => ScanDirs(items[1..], dir, depth)
    else ScanDirs(items[1..], dir, depth)
  }

  /** `findUnityGamePath(gameDir)`, as path segments. */
  function FindUnityGamePath(root: Node): (r: Option<seq<string>>)
    ensures r.Some? ==> |r.value| >= 1
  {
    FindIndexHtml(root, [], 0)
  }

  /** The string the source builds from a result: segments joined with `/`
      and backslashes turned into forward slashes (server.js:51). */
  function Render(segs: seq<string>): (r: string)
    ensures '\\' !in r
    ensures |r| == |JoinSegments(segs)|
    ensures |segs| >= 1 ==> |r| >= |segs| - 1 + |segs[|segs| - 1]|
  {
    Slashes(JoinSegments(segs))
  }

  // ---------------------------------------------------------------------
  // The search as evidently intended
  // ---------------------------------------------------------------------

  /** `findIndexHtml` with server.js:44 returning the hit relative to the
      directory being searched: the result is the path from `node` to the
      entry file. */
  function FindFixed(node: Node, depth: nat): (r: Option<seq<string>>)
    ensures r.Some? ==> |r.value| >= 1
    decreases MaxDepth + 1 - depth, 1, 0
  {
    if depth > MaxDepth then None
    else match node
      case Dir(_, Some(items)) =>
        (match FirstCandidate(items)
         case Some(k) =>
           (match items[k].content
            case None => None
            case Some(text) =>
              if IsUnityPage(text) then Some([items[k].name])
              else ScanFixed(items, depth))
         case None => ScanFixed(items, depth))
      case _ => None
  }

  /** The loop of server.js:47-54 over the corrected search. */
  function ScanFixed(items: seq<Node>, depth: nat): (r: Option<seq<string>>)
    requires depth <= MaxDepth
    ensures r.Some? ==> |r.value| >= 2
    decreases MaxDepth + 1 - depth, 0, |items|
  {
    if items == [] then None
    else if IsVisibleDir(items[0]) then
      match FindFixed(items[0], depth + 1)
      case Some(r) => Some([items[0].name] + r)
      case None => ScanFixed(items[1..], depth)
    else ScanFixed(items[1..], depth)
  }

  /** The corrected `findUnityGamePath`. */
  function FindUnityGamePathFixed(root: Node): (r: Option<seq<string>>)
    ensures r.Some? ==> |r.value| >= 1
  {
    FindFixed(root, 0)
  }

  // ---------------------------------------------------------------------
  // Where an entry file is: a declarative reference
  // ---------------------------------------------------------------------

  /** Following the visible directories `ds` down from `node`, which is
      searched at `depth`, reaches a directory whose candidate is named
      `name` and validates; every listing on the way succeeds, no directory
      on the way is deeper than `MaxDepth`, and the candidate of every
      directory passed through can be read. */
  ghost predicate Hit(node: Node, ds: seq<string>, name: string, depth: nat)
    decreases ds
  {
    && depth <= MaxDepth
    && node.Dir? && node.entries.Some?
    && var items := node.entries.value;
       if ds == [] then
         AcceptsCandidate(items) && CandidateName(items) == name
       else
         && CandidateReadable(items)
         && exists k :: 0 <= k < |items| && IsVisibleDir(items[k]) && items[k].name == ds[0]
                        && Hit(items[k], ds[1..], name, depth + 1)
  }

  /** `p` with its directory part doubled around `dir`: the shape in which
      the as-written search reports an entry file at `p` below `dir`. */
  function Doubled(p: seq<string>, dir: seq<string>): seq<string>
    requires |p| >= 1
  {
    p[..|p| - 1] + dir + p
  }

  function DoubledOpt(r: Option<seq<string>>, dir: seq<string>): Option<seq<string>>
    requires r.Some? ==> |r.value| >= 1
  {
    match r
    case None => None
    case Some(p) => Some(Doubled(p, dir))
  }

  // ---------------------------------------------------------------------
  // The as-written search against the corrected one
  // ---------------------------------------------------------------------

  /** Whatever the tree, the as-written search finds the same entry file
      as the corrected one, but reports the path `p` from `node` to it as
      `Doubled(p, dir)`: the hit of server.js:44 is already relative to the
      game root, and server.js:51 prepends each enclosing directory again. */
  lemma {:induction false} AsWrittenDoublesPrefix(node: Node, dir: seq<string>, depth: nat)
    ensures FindIndexHtml(node, dir, depth) == DoubledOpt(FindFixed(node, depth), dir)
    decreases MaxDepth + 1 - depth, 1, 0
  {
    if depth <= MaxDepth {
      match node
      case Dir(_, Some(items)) =>
        ScanDoublesPrefix(items, dir, depth);
        if FirstCandidate(items).Some? {
          var name := CandidateName(items);
          assert Doubled([name], dir) == dir + [name];
        }
      case _ =>
    }
  }

  lemma {:induction false} ScanDoublesPrefix(items: seq<Node>, dir: seq<string>, depth: nat)
    requires depth <= MaxDepth
    ensures ScanDirs(items, dir, depth) == DoubledOpt(ScanFixed(items, depth), dir)
    decreases MaxDepth + 1 - depth, 0, |items|
  {
    if items != [] {
      var c := items[0];
      if IsVisibleDir(c) {
        AsWrittenDoublesPrefix(c, dir + [c.name], depth + 1);
        match FindFixed(c, depth + 1)
        case Some(q) =>
          var p := [c.name] + q;
          assert p[..|p| - 1] == [c.name] + q[..|q| - 1];
          assert [c.name] + Doubled(q, dir + [c.name]) == Doubled(p, dir);
        case None =>
          ScanDoublesPrefix(items[1..], dir, depth);
      } else {
        ScanDoublesPrefix(items[1..], dir, depth);
      }
    }
  }

  // ---------------------------------------------------------------------
  // The corrected search against the reference
  // ---------------------------------------------------------------------

  /** Soundness: a path the corrected search returns leads to a validated
      entry file, through visible directories, within the depth bound. */
  lemma {:induction false} FixedSound(node: Node, depth: nat)
    requires FindFixed(node, depth).Some?
    ensures var p := FindFixed(node, depth).value; Hit(node, p[..|p| - 1], p[|p| - 1], depth)
    decreases MaxDepth + 1 - depth, 1, 0
  {
    var p := FindFixed(node, depth).value;
    var items := node.entries.value;
    if !AcceptsCandidate(items) {
      ScanFixedSound(items, depth);
      var k :| 0 <= k < |items| && IsVisibleDir(items[k]) && items[k].name == p[0]
               && Hit(items[k], p[1..|p| - 1], p[|p| - 1], depth + 1);
      var ds := p[..|p| - 1];
      assert ds[0] == p[0] && ds[1..] == p[1..|p| - 1];
    }
  }

  lemma {:induction false} ScanFixedSound(items: seq<Node>, depth: nat)
    requires depth <= MaxDepth
    requires ScanFixed(items, depth).Some?
    ensures var p := ScanFixed(items, depth).value;
      exists k :: 0 <= k < |items| && IsVisibleDir(items[k]) && items[k].name == p[0]
                  && Hit(items[k], p[1..|p| - 1], p[|p| - 1], depth + 1)
    decreases MaxDepth + 1 - depth, 0, |items|
  {
    var p := ScanFixed(items, depth).value;
    var c := items[0];
    if IsVisibleDir(c) && FindFixed(c, depth + 1).Some? {
      var q := FindFixed(c, depth + 1).value;
      FixedSound(c, depth + 1);
      assert p == [c.name] + q;
      assert p[1..|p| - 1] == q[..|q| - 1] && p[|p| - 1] == q[|q| - 1];
      assert Hit(items[0], p[1..|p| - 1], p[|p| - 1], depth + 1);
    } else {
      ScanFixedSound(items[1..], depth);
      var k :| 0 <= k < |items[1..]| && IsVisibleDir(items[1..][k]) && items[1..][k].name == p[0]
               && Hit(items[1..][k], p[1..|p| - 1], p[|p| - 1], depth + 1);
      assert items[k + 1] == items[1..][k];
    }
  }

  /** Completeness: if an entry file can be reached at all, the corrected
      search returns some path. */
  lemma {:induction false} FixedComplete(node: Node, ds: seq<string>, name: string, depth: nat)
    requires Hit(node, ds, name, depth)
    ensures FindFixed(node, depth).Some?
    decreases MaxDepth + 1 - depth, 1, 0
  {
    var items := node.entries.value;
    if ds != [] && !AcceptsCandidate(items) {
      var k :| 0 <= k < |items| && IsVisibleDir(items[k]) && items[k].name == ds[0]
               && Hit(items[k], ds[1..], name, depth + 1);
      ScanFixedComplete(items, k, ds[1..], name, depth);
    }
  }

  lemma {:induction false} ScanFixedComplete(items: seq<Node>, k: nat, ds: seq<string>, name: string, depth: nat)
    requires depth <= MaxDepth
    requires k < |items| && IsVisibleDir(items[k]) && Hit(items[k], ds, name, depth + 1)
    ensures ScanFixed(items, depth).Some?
    decreases MaxDepth + 1 - depth, 0, |items|
  {
    if k == 0 {
      FixedComplete(items[0], ds, name, depth + 1);
    } else if !(IsVisibleDir(items[0]) && FindFixed(items[0], depth + 1).Some?) {
      assert items[1..][k - 1] == items[k];
      ScanFixedComplete(items[1..], k - 1, ds, name, depth);
    }
  }

  /** What a reachable entry file is: its name lower-cases to `index.html`,
      its directory is at most `MaxDepth` levels below the root of the
      search, and no directory on the way has a name starting with `.`. */
  lemma {:induction false} HitBounds(node: Node, ds: seq<string>, name: string, depth: nat)
    requires Hit(node, ds, name, depth)
    ensures depth + |ds| <= MaxDepth
    ensures ToLower(name) == IndexName
    ensures forall i :: 0 <= i < |ds| ==> !StartsWith(ds[i], ".")
    decreases ds
  {
    if ds != [] {
      var items := node.entries.value;
      var k :| 0 <= k < |items| && IsVisibleDir(items[k]) && items[k].name == ds[0]
               && Hit(items[k], ds[1..], name, depth + 1);
      HitBounds(items[k], ds[1..], name, depth + 1);
      forall i | 0 <= i < |ds| ensures !StartsWith(ds[i], ".") {
        if i > 0 { assert ds[i] == ds[1..][i - 1]; }
      }
    }
  }

  /** The corrected discovery reports exactly where a validated entry file
      is, and reports something exactly when such a file is reachable. */
  lemma FixedReportsLocation(root: Node)
    ensures FindUnityGamePathFixed(root).Some? <==> exists ds, name :: Hit(root, ds, name, 0)
    ensures FindUnityGamePathFixed(root).Some? ==>
      var p := FindUnityGamePathFixed(root).value;
      Hit(root, p[..|p| - 1], p[|p| - 1], 0) && |p| - 1 <= MaxDepth
  {
    if FindUnityGamePathFixed(root).Some? {
      var p := FindUnityGamePathFixed(root).value;
      FixedSound(root, 0);
      HitBounds(root, p[..|p| - 1], p[|p| - 1], 0);
      assert exists ds, name :: Hit(root, ds, name, 0);
    } else {
      forall ds, name | Hit(root, ds, name, 0) ensures false {
        FixedComplete(root, ds, name, 0);
      }
    }
  }

  /** The as-written discovery finds something exactly when a validated
      entry file is reachable, and then reports the file at `ds + [name]`
      as `ds + ds + [name]`. */
  lemma DiscoveryResultShape(root: Node)
    ensures FindUnityGamePath(root).Some? <==> exists ds, name :: Hit(root, ds, name, 0)
    ensures FindUnityGamePath(root).Some? ==>
      exists ds, name :: Hit(root, ds, name, 0) && FindUnityGamePath(root).value == ds + ds + [name]
  {
    var fixed := FindUnityGamePathFixed(root);
    AsWrittenDoublesPrefix(root, [], 0);
    assert FindUnityGamePath(root) == DoubledOpt(fixed, []);
    FixedReportsLocation(root);
    if fixed.Some? {
      var p := fixed.value;
      var ds, name := p[..|p| - 1], p[|p| - 1];
      assert p == ds + [name];
      assert Doubled(p, []) == ds + ds + [name];
      assert Hit(root, ds, name, 0) && FindUnityGamePath(root).value == ds + ds + [name];
    }
  }

  // ---------------------------------------------------------------------
  // One directory, and the order of the loop
  // ---------------------------------------------------------------------

  /** The three outcomes at a listed directory within the depth bound: an
      accepted candidate is returned before any subdirectory is visited; a
      candidate that cannot be read makes the whole directory not-found,
      whatever its subdirectories hold; otherwise (no candidate, or a
      rejected one) the result is that of the loop over the subdirectories. */
  lemma CandidateSelection(name: string, items: seq<Node>, dir: seq<string>, depth: nat)
    requires depth <= MaxDepth
    ensures AcceptsCandidate(items) ==>
      FindIndexHtml(Dir(name, Some(items)), dir, depth) == Some(dir + [CandidateName(items)])
    ensures !CandidateReadable(items) ==> FindIndexHtml(Dir(name, Some(items)), dir, depth) == None
    ensures CandidateReadable(items) && !AcceptsCandidate(items) ==>
      FindIndexHtml(Dir(name, Some(items)), dir, depth) == ScanDirs(items, dir, depth)
  {
  }

  /** Not-found without looking further: past the depth bound, at a
      directory that cannot be listed, and at anything that is not a
      directory. */
  lemma NotFoundWithoutListing(node: Node, dir: seq<string>, depth: nat)
    requires depth > MaxDepth || !node.Dir? || node.entries.None?
    ensures FindIndexHtml(node, dir, depth) == None
  {
  }

  /** The loop returns the first hit in listing order: on `a + b` it
      visits `b` only when nothing in `a` is found. */
  lemma {:induction false} ScanDirsAppend(a: seq<Node>, b: seq<Node>, dir: seq<string>, depth: nat)
    requires depth <= MaxDepth
    ensures ScanDirs(a + b, dir, depth) ==
      if ScanDirs(a, dir, depth).Some? then ScanDirs(a, dir, depth) else ScanDirs(b, dir, depth)
  {
    if a != [] {
      assert (a + b)[0] == a[0] && (a + b)[1..] == a[1..] + b;
      ScanDirsAppend(a[1..], b, dir, depth);
    } else {
      assert a + b == b;
    }
  }

  /** The entries the loop descends into, in listing order. */
  function VisibleDirs(items: seq<Node>): (r: seq<Node>)
    ensures forall x :: x in r ==> x in items && IsVisibleDir(x)
    ensures forall x :: x in items && IsVisibleDir(x) ==> x in r
    ensures |items| == 1 ==> r == if IsVisibleDir(items[0]) then items else []
    ensures |r| <= |items|
  {
    if items == [] then []
    else if IsVisibleDir(items[0]) then [items[0]] + VisibleDirs(items[1..])
    else VisibleDirs(items[1..])
  }

  /** Filtering keeps listing order: the entries kept from `a + b` are those
      kept from `a`, followed by those kept from `b`. With the one-entry case
      of `VisibleDirs` this fixes the result entry by entry, duplicates
      included. */
  lemma {:induction false} VisibleDirsAppend(a: seq<Node>, b: seq<Node>)
    ensures VisibleDirs(a + b) == VisibleDirs(a) + VisibleDirs(b)
  {
    if a == [] {
      assert a + b == b;
    } else {
      assert (a + b)[0] == a[0] && (a + b)[1..] == a[1..] + b;
      VisibleDirsAppend(a[1..], b);
    }
  }

  /** Files, other entries and directories whose name starts with `.` play
      no part in the loop: it behaves as if only the visible directories
      were listed. */
  lemma {:induction false} ScanSkipsInvisible(items: seq<Node>, dir: seq<string>, depth: nat)
    requires depth <= MaxDepth
    ensures ScanDirs(items, dir, depth) == ScanDirs(VisibleDirs(items), dir, depth)
  {
    if items != [] {
      ScanSkipsInvisible(items[1..], dir, depth);
      if IsVisibleDir(items[0]) {
        var v := VisibleDirs(items);
        assert v[0] == items[0] && v[1..] == VisibleDirs(items[1..]);
      }
    }
  }

  // ---------------------------------------------------------------------
  // The depth bound: nothing deeper is examined
  // ---------------------------------------------------------------------

  /** The tree as the search can see it from `depth`: a directory whose
      search would start deeper than `MaxDepth` keeps its name but loses
      its listing. */
  function Prune(node: Node, depth: nat): (r: Node)
    ensures r.name == node.name && r.File? == node.File? && r.Dir? == node.Dir?
    ensures node.File? ==> r == node
    decreases MaxDepth + 1 - depth, 1, 0
  {
    match node
    case Dir(n, Some(items)) =>
      if depth > MaxDepth then Dir(n, None) else Dir(n, Some(PruneAll(items, depth)))
    case _ => node
  }

  /** The listing of a directory searched at `depth`, with every entry
      pruned for `depth + 1`. */
  function PruneAll(items: seq<Node>, depth: nat): (r: seq<Node>)
    requires depth <= MaxDepth
    ensures |r| == |items|
    ensures forall i :: 0 <= i < |items| ==> r[i] == Prune(items[i], depth + 1)
    decreases MaxDepth + 1 - depth, 0, |items|
  {
    if items == [] then [] else [Prune(items[0], depth + 1)] + PruneAll(items[1..], depth)
  }

  /** Two listings whose entries are files, directories and other entries
      alike, with the same names and the same files, have the same candidate. */
  lemma {:induction false} FirstCandidateOfPruned(items: seq<Node>, depth: nat)
    requires depth <= MaxDepth
    ensures FirstCandidate(PruneAll(items, depth)) == FirstCandidate(items)
  {
    if items != [] {
      var pruned := PruneAll(items, depth);
      assert pruned[1..] == PruneAll(items[1..], depth);
      FirstCandidateOfPruned(items[1..], depth);
    }
  }

  /** A call with depth above `MaxDepth` never lists its directory: the
      search gives the same answer on the tree cut below that level. */
  lemma {:induction false} SearchIgnoresDeeperLevels(node: Node, dir: seq<string>, depth: nat)
    ensures FindIndexHtml(Prune(node, depth), dir, depth) == FindIndexHtml(node, dir, depth)
    decreases MaxDepth + 1 - depth, 1, 0
  {
    if depth <= MaxDepth {
      match node
      case Dir(n, Some(items)) =>
        FirstCandidateOfPruned(items, depth);
        ScanIgnoresDeeperLevels(items, dir, depth);
      case _ =>
    }
  }

  lemma {:induction false} ScanIgnoresDeeperLevels(items: seq<Node>, dir: seq<string>, depth: nat)
    requires depth <= MaxDepth
    ensures ScanDirs(PruneAll(items, depth), dir, depth) == ScanDirs(items, dir, depth)
    decreases MaxDepth + 1 - depth, 0, |items|
  {
    if items != [] {
      var pruned := PruneAll(items, depth);
      assert pruned[1..] == PruneAll(items[1..], depth);
      SearchIgnoresDeeperLevels(items[0], dir + [items[0].name], depth + 1);
      ScanIgnoresDeeperLevels(items[1..], dir, depth);
    }
  }

  // ---------------------------------------------------------------------
  // The result as a string
  // ---------------------------------------------------------------------

  /** `findUnityGamePath(gameDir)` as the string the route receives. */
  function FindUnityGamePathString(root: Node): (r: Option<string>)
    ensures r.Some? <==> FindUnityGamePath(root).Some?
  {
    match FindUnityGamePath(root)
    case None => None
    case Some(segs) => Some(Render(segs))
  }

  /** A name that lower-cases to `index.html` holds no backslash, so a hit
      at the root (server.js:44, where no replacement happens) renders as
      the file's own name, in its original case. */
  lemma RootHitRendersAsName(name: string)
    requires ToLower(name) == IndexName
    ensures Render([name]) == name
  {
    forall i | 0 <= i < |name| ensures name[i] != '\\' {
      assert ToLower(name)[i] == LowerChar(name[i]);
    }
  }

  /** Replacing backslashes once at the end gives the string that
      server.js:51 builds by joining and replacing at every level. */
  lemma RenderPerLevel(name: string, rest: seq<string>)
    requires rest != []
    ensures Render([name] + rest) == Slashes(name + "/" + Render(rest))
  {
    assert ([name] + rest)[1..] == rest;
    var j := JoinSegments(rest);
    assert JoinSegments([name] + rest) == name + "/" + j;
    SlashesAppend(name + "/", j);
    SlashesAppend(name + "/", Slashes(j));
    SlashesIdempotent(j);
  }

  /** The path the route receives is never the empty string, so its
      truthiness test (server.js:65) is the same as "something was found". */
  lemma DiscoveredPathNonEmpty(root: Node)
    ensures FindUnityGamePathString(root).Some? ==> FindUnityGamePathString(root).value != ""
  {
    DiscoveryResultShape(root);
    if FindUnityGamePath(root).Some? {
      var ds, name :| Hit(root, ds, name, 0) && FindUnityGamePath(root).value == ds + ds + [name];
      HitBounds(root, ds, name, 0);
      assert |name| == |IndexName|;
    }
  }

  /** Inside the loop (server.js:50) the recursive call is made for a
      subdirectory, so its directory path is not empty; a result it finds
      renders as a non-empty string, and the test `if (found)` is the same
      as "something was found". */
  lemma NestedResultNonEmpty(node: Node, dir: seq<string>, depth: nat)
    requires |dir| >= 1
    ensures FindIndexHtml(node, dir, depth).Some? ==> Render(FindIndexHtml(node, dir, depth).value) != ""
  {
  }

  /** A validated candidate directly in the game root is reported as the
      file's own name, in its original case. */
  lemma RootHitIsName(rootName: string, items: seq<Node>)
    requires AcceptsCandidate(items)
    ensures FindUnityGamePathString(Dir(rootName, Some(items))) == Some(CandidateName(items))
  {
    CandidateSelection(rootName, items, [], 0);
    RootHitRendersAsName(CandidateName(items));
  }
}
