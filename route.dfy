/** The handler of `GET /` (server.js:62-76): run discovery once, then send
    the discovered file, answer 404, or answer 500 if anything threw. */
module RootRoute {
  import opened Strings
  import opened Options
  import opened FileTree
  import opened Discovery

  const GameFolderName := "pixeltris"
  const NotFoundMessage := "\U{274C} Jogo Unity n\U{00E3}o encontrado na pasta especificada."
  const ServerErrorMessage := "Erro interno do servidor."

  /** `gamesDir` of server.js:9: `public/games/pixeltris` below the
      directory `serverDir` holding the server. */
  function GamesDir(serverDir: string): (r: string)
    ensures StartsWith(r, serverDir)
    ensures EndsWith(r, "/public/games/" + GameFolderName)
    ensures |r| == |serverDir| + |"/public/games/" + GameFolderName|
  {
    var r := serverDir + ("/public/games/" + GameFolderName);
    assert r[..|serverDir|] == serverDir;
    assert r[|r| - |"/public/games/" + GameFolderName|..] == "/public/games/" + GameFolderName;
    r
  }

  /** What the call to `findUnityGamePath` did: returned `null` (`None`) or
      a path, or threw. */
  datatype Discovered = Returned(path: Option<string>) | Threw

  /** The route's answer: `res.sendFile(fullPath)`, or a status with a body. */
  datatype Reply = SendFile(fullPath: string) | Status(code: nat, body: string)

  /** The three-way choice of server.js:63-75. A path is used only when it
      is truthy, that is, not the empty string. */
  function Route(gamesDir: string, outcome: Discovered): (reply: Reply)
    ensures reply.SendFile? <==> outcome.Returned? && outcome.path.Some? && outcome.path.value != ""
    ensures reply.SendFile? ==> reply.fullPath == gamesDir + "/" + outcome.path.value
    ensures !reply.SendFile? ==> reply == Status(404, NotFoundMessage) || reply == Status(500, ServerErrorMessage)
    ensures reply == Status(500, ServerErrorMessage) <==> outcome.Threw?
  {
    match outcome
    case Threw => Status(500, ServerErrorMessage)
    case Returned(None) => Status(404, NotFoundMessage)
    case Returned(Some(p)) =>
      if p != "" then SendFile(gamesDir + "/" + p) else Status(404, NotFoundMessage)
  }

  /** `GET /` for the server in `serverDir`, whose game tree is `root`.
      Discovery catches every failure inside its own `try`, so it always
      returns. The path sent starts, as a string, with the games directory;
      `path.join` may still resolve `..` segments in it (see `RootRoute.ServeRoot`
      in README.md). */
  function ServeRoot(serverDir: string, root: Node): (reply: Reply)
    ensures reply.SendFile? || reply == Status(404, NotFoundMessage)
    ensures reply.SendFile? ==> StartsWith(reply.fullPath, GamesDir(serverDir) + "/")
  {
    Route(GamesDir(serverDir), Returned(FindUnityGamePathString(root)))
  }

  /** `GET /` with the corrected discovery. */
  function ServeRootFixed(serverDir: string, root: Node): (reply: Reply)
    ensures reply.SendFile? || reply == Status(404, NotFoundMessage)
    ensures reply.SendFile? ==> StartsWith(reply.fullPath, GamesDir(serverDir) + "/")
  {
    Route(GamesDir(serverDir), Returned(
      match FindUnityGamePathFixed(root)
      case None => None
      case Some(p) => Some(Render(p))))
  }

  /** As written: the route never answers 500; it sends a file exactly when
      a validated entry file is reachable, and then the path it sends
      repeats the entry file's directories; otherwise it answers 404 with
      the not-found message. */
  lemma ServeRootAsWritten(serverDir: string, root: Node)
    ensures ServeRoot(serverDir, root) != Status(500, ServerErrorMessage)
    ensures ServeRoot(serverDir, root).SendFile? <==> exists ds, name :: Hit(root, ds, name, 0)
    ensures !ServeRoot(serverDir, root).SendFile? ==> ServeRoot(serverDir, root) == Status(404, NotFoundMessage)
    ensures ServeRoot(serverDir, root).SendFile? ==>
      exists ds, name :: Hit(root, ds, name, 0)
        && ServeRoot(serverDir, root).fullPath == GamesDir(serverDir) + "/" + Render(ds + ds + [name])
  {
    DiscoveryResultShape(root);
    DiscoveredPathNonEmpty(root);
  }

  /** Corrected: the route sends the validated entry file at `ds + [name]`
      itself, and answers 404 exactly when none is reachable. */
  lemma ServeRootIntended(serverDir: string, root: Node)
    ensures ServeRootFixed(serverDir, root) != Status(500, ServerErrorMessage)
    ensures ServeRootFixed(serverDir, root).SendFile? <==> exists ds, name :: Hit(root, ds, name, 0)
    ensures ServeRootFixed(serverDir, root).SendFile? ==>
      exists ds, name :: Hit(root, ds, name, 0)
        && ServeRootFixed(serverDir, root).fullPath == GamesDir(serverDir) + "/" + Render(ds + [name])
  {
    FixedReportsLocation(root);
    if FindUnityGamePathFixed(root).Some? {
      var p := FindUnityGamePathFixed(root).value;
      var ds, name := p[..|p| - 1], p[|p| - 1];
      assert p == ds + [name];
      assert |JoinSegments(p)| >= 1;
      assert Hit(root, ds, name, 0);
    }
  }
}
