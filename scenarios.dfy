/** Concrete game trees and what discovery and the root route make of them.
    Page contents are parameters: a page that names the loader is any
    `text` with `IsUnityPage(text)`, and `LoaderValidates` shows a real
    Unity loader call is one. */
module Scenarios {
  import opened Strings
  import opened Options
  import opened FileTree
  import opened Discovery
  import opened RootRoute

  const Loader := "createUnityInstance(canvas, config)"

  function Page(text: string): Node {
    File("index.html", Some(text))
  }

  function Folder(name: string, entries: seq<Node>): Node {
    Dir(name, Some(entries))
  }

  /** The build at `a/b/index.html`, with content `text`, and nothing else. */
  function NestedBuild(text: string): Node {
    Folder("pixeltris", [Folder("a", [Folder("b", [Page(text)])])])
  }

  /** The page a Unity WebGL build writes passes the content test. */
  lemma LoaderValidates()
    ensures IsUnityPage(Loader)
  {
    assert Loader[0..] == Loader;
    assert StartsWith(Loader[0..], "createUnityInstance");
  }

  lemma PageIsCandidate(text: string)
    ensures IsCandidate(Page(text))
  {
    ToLowerOfLower(IndexName);
  }

  /** A page without a capital `U` names neither loader. */
  lemma NoLoaderWithoutU(text: string)
    requires 'U' !in text
    ensures !IsUnityPage(text)
  {
    assert 'U' in "UnityLoader" && 'U' in "createUnityInstance";
    ContainsNeedsChar(text, "UnityLoader", 'U');
    ContainsNeedsChar(text, "createUnityInstance", 'U');
  }

  /** The entry file sits at `a/b/index.html`, the as-written search reports
      `a/b/a/b/index.html`, and the route sends that doubled path. */
  lemma NestedHitIsDoubled(serverDir: string, text: string)
    requires IsUnityPage(text)
    ensures FindUnityGamePathFixed(NestedBuild(text)) == Some(["a", "b", "index.html"])
    ensures FindUnityGamePath(NestedBuild(text)) == Some(["a", "b", "a", "b", "index.html"])
    ensures ServeRoot(serverDir, NestedBuild(text)) == SendFile(GamesDir(serverDir) + "/" + "a/b/a/b/index.html")
  {
    NestedBuildFixed(text);
    AsWrittenDoublesPrefix(NestedBuild(text), [], 0);
    var p: seq<string> := ["a", "b", "index.html"];
    assert Doubled(p, []) == ["a", "b", "a", "b", "index.html"];
    SendsBelowGamesDir(serverDir, NestedBuild(text), Doubled(p, []));
    RenderDoubled();
  }

  /** The discovered segments are sent, rendered, from below the games
      directory. */
  lemma SendsBelowGamesDir(serverDir: string, root: Node, segs: seq<string>)
    requires FindUnityGamePath(root) == Some(segs)
    ensures ServeRoot(serverDir, root) == SendFile(GamesDir(serverDir) + "/" + Render(segs))
  {
    DiscoveredPathNonEmpty(root);
  }

  /** The corrected search locates the page at `a/b/index.html`. */
  lemma NestedBuildFixed(text: string)
    requires IsUnityPage(text)
    ensures FindFixed(NestedBuild(text), 0) == Some(["a", "b", "index.html"])
  {
    assert "a"[..1] == "a" && "b"[..1] == "b";
    PageIsCandidate(text);
    TwoLevelsDown("pixeltris", "a", "b", Page(text));
  }

  /** An accepted candidate two visible directories below the root is
      reported at `a/b/<its name>`. */
  lemma TwoLevelsDown(root: string, a: string, b: string, page: Node)
    requires !StartsWith(a, ".") && !StartsWith(b, ".")
    requires IsCandidate(page) && page.content.Some? && IsUnityPage(page.content.value)
    ensures FindFixed(Folder(root, [Folder(a, [Folder(b, [page])])]), 0) == Some([a, b, page.name])
  {
    var fb := Folder(b, [page]);
    AcceptedFolder(b, page, 2);
    SingleFolderStep(a, fb, 1);
    assert [b] + [page.name] == [b, page.name];
    SingleFolderStep(root, Folder(a, [fb]), 0);
    assert [a] + [b, page.name] == [a, b, page.name];
  }

  /** A folder holding only an accepted candidate reports it by name. */
  lemma AcceptedFolder(name: string, page: Node, depth: nat)
    requires depth <= MaxDepth
    requires IsCandidate(page) && page.content.Some? && IsUnityPage(page.content.value)
    ensures FindFixed(Folder(name, [page]), depth) == Some([page.name])
  {
    assert FirstCandidate([page]) == Some(0);
  }

  /** A folder whose only entry is a visible directory yields that
      directory's result, one level deeper, with its name in front. */
  lemma SingleFolderStep(name: string, child: Node, depth: nat)
    requires depth <= MaxDepth && IsVisibleDir(child)
    ensures FindFixed(Folder(name, [child]), depth) ==
      match FindFixed(child, depth + 1)
      case None => None
      case Some(r) => Some([child.name] + r)
  {
    assert !IsCandidate(child) && [child][1..] == [];
    assert FirstCandidate([child]) == None;
    assert FindFixed(Folder(name, [child]), depth) == ScanFixed([child], depth);
  }

  lemma RenderDoubled()
    ensures Render(["a", "b", "a", "b", "index.html"]) == "a/b/a/b/index.html"
  {
    var segs: seq<string> := ["a", "b", "a", "b", "index.html"];
    assert segs[4..] == ["index.html"];
    assert JoinSegments(segs[3..]) == "b" + "/" + "index.html";
    assert JoinSegments(segs[2..]) == "a" + "/" + "b/index.html";
    assert JoinSegments(segs[1..]) == "b" + "/" + "a/b/index.html";
    assert JoinSegments(segs) == "a" + "/" + "b/a/b/index.html";
    SlashesKeepsPlain("a/b/a/b/index.html");
  }

  /** A page six levels down is past the depth bound, whatever it holds. */
  lemma TooDeepIsNotFound(text: string)
    ensures FindUnityGamePath(
      Folder("pixeltris", [Folder("1", [Folder("2", [Folder("3", [Folder("4", [Folder("5", [Folder("6", [Page(text)])])])])])])]))
      == None
  {
    var d6 := Folder("6", [Page(text)]);
    var d5 := Folder("5", [d6]);
    var d4 := Folder("4", [d5]);
    var d3 := Folder("3", [d4]);
    var d2 := Folder("2", [d3]);
    var d1 := Folder("1", [d2]);
    var root := Folder("pixeltris", [d1]);
    assert FindFixed(d6, 6) == None;
    assert FindFixed(d5, 5) == None;
    assert FindFixed(d4, 4) == None;
    assert FindFixed(d3, 3) == None;
    assert FindFixed(d2, 2) == None;
    assert FindFixed(d1, 1) == None;
    assert FindFixed(root, 0) == None;
    AsWrittenDoublesPrefix(root, [], 0);
  }

  /** An `index.html` without the loader is never the entry file, even
      when there is no other candidate. */
  lemma UnvalidatedIsNotFound(text: string)
    requires !IsUnityPage(text)
    ensures FindUnityGamePath(Folder("pixeltris", [Folder("a", [Page(text)])])) == None
  {
    RejectedPageOnly("a", text);
    var a := Folder("a", [Page(text)]);
    var root := Folder("pixeltris", [a]);
    assert FirstCandidate([a]) == None && [a][1..] == [];
    assert FindFixed(root, 0) == ScanFixed([a], 0) == None;
    AsWrittenDoublesPrefix(root, [], 0);
  }

  /** A placeholder page put where the build should be is not an entry
      file: it names neither loader. */
  lemma PlaceholderIsNotFound()
    ensures FindUnityGamePath(Folder("pixeltris", [Folder("a", [Page("<p>coming soon</p>")])])) == None
  {
    NoLoaderWithoutU("<p>coming soon</p>");
    UnvalidatedIsNotFound("<p>coming soon</p>");
  }

  lemma RejectedPageOnly(name: string, text: string)
    requires !IsUnityPage(text)
    ensures FindFixed(Folder(name, [Page(text)]), 1) == None
  {
    var page := Page(text);
    PageIsCandidate(text);
    assert FirstCandidate([page]) == Some(0);
    assert [page][1..] == [] && !IsVisibleDir(page);
    assert ScanFixed([page][1..], 1) == None;
    assert ScanFixed([page], 1) == None;
  }

  /** A page inside a hidden directory is never found, whatever it holds. */
  lemma HiddenDirIsNotFound(text: string)
    ensures FindUnityGamePath(Folder("pixeltris", [Folder(".cache", [Page(text)])])) == None
  {
    var hidden := Folder(".cache", [Page(text)]);
    var root := Folder("pixeltris", [hidden]);
    assert ".cache"[..1] == ".";
    assert !IsVisibleDir(hidden) && [hidden][1..] == [];
    assert FirstCandidate([hidden]) == None;
    assert FindFixed(root, 0) == ScanFixed([hidden], 0) == None;
    AsWrittenDoublesPrefix(root, [], 0);
  }

  /** A candidate that cannot be read hides any page below it. */
  lemma UnreadableCandidatePrunes(text: string)
    ensures FindUnityGamePath(Folder("pixeltris", [File("index.html", None), Folder("a", [Page(text)])])) == None
  {
    PageIsCandidate(text);
    var broken := File("index.html", None);
    assert broken == Page(text).(content := None) && IsCandidate(broken);
    var root := Folder("pixeltris", [broken, Folder("a", [Page(text)])]);
    assert FirstCandidate(root.entries.value) == Some(0);
    assert FindFixed(root, 0) == None;
    AsWrittenDoublesPrefix(root, [], 0);
  }

  /** Only the first file named `index.html` in any case is tried: a
      rejected `INDEX.HTML` listed first hides any `index.html` after it. */
  lemma OnlyFirstCandidateTried(rejected: string, text: string)
    requires !IsUnityPage(rejected)
    ensures FindUnityGamePath(Folder("pixeltris", [File("INDEX.HTML", Some(rejected)), Page(text)])) == None
  {
    assert ToLower("INDEX.HTML") == IndexName;
    FirstCandidateRejected("pixeltris", File("INDEX.HTML", Some(rejected)), Page(text));
    AsWrittenDoublesPrefix(Folder("pixeltris", [File("INDEX.HTML", Some(rejected)), Page(text)]), [], 0);
  }

  lemma FirstCandidateRejected(name: string, first: Node, second: Node)
    requires IsCandidate(first) && first.content.Some? && !IsUnityPage(first.content.value)
    requires !second.Dir?
    ensures FindFixed(Folder(name, [first, second]), 0) == None
  {
    var items := [first, second];
    assert FirstCandidate(items) == Some(0);
    assert items[1..][1..] == [] && !IsVisibleDir(items[0]) && !IsVisibleDir(items[1]);
    assert ScanFixed(items[1..], 0) == None;
    assert ScanFixed(items, 0) == None;
  }
}
