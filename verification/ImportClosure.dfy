/** Which modules enter the offline package: a worklist over the imports of the application. */
module ImportClosure {
  import opened Options

  type Name = string

  /** What reading a module's imports gives: a refusal, or the names it imports. */
  datatype Parsed = Rejected | Imports(names: set<Name>)

  /** The modules that have a file, with their imports. */
  type Repo = map<Name, Parsed>

  const ROOT: Name := "app.local_cli"

  const ALLOWED: set<Name> := {
    "app", "app.local_cli", "app.local_store", "app.logging_config", "app.log_context", "app.capabilities",
    "app.ingest", "app.ingest.validators", "app.report", "app.report.sarif", "app.report.plain_language",
    "app.report.dependency_snapshot", "app.report.project_checks", "app.report.threat_context",
    "app.sca", "app.sca.lockfiles", "app.sca.resolved_locks", "app.sca.bun_lock" }

  const EXTERNAL: set<Name> := {"yaml", "tree_sitter", "tree_sitter_typescript", "pglast"}

  predicate IsApplication(n: Name) {
    n == "app" || "app." <= n
  }

  predicate InBoundary(n: Name) {
    n in ALLOWED || "app.scan." <= n || n == "app.scan"
  }

  predicate Forbidden(n: Name) {
    n == "app.scan.pipeline" || n == "app.scan.llm_scan"
  }

  /** Everything before the last dot. */
  function Parent(n: Name): (p: Option<Name>)
    ensures p.Some? <==> '.' in n
    ensures p.Some? ==> p.value + "." <= n && '.' !in n[|p.value| + 1..]
  {
    if n == "" then None
    else if n[|n| - 1] == '.' then Some(n[..|n| - 1])
    else
      var p := Parent(n[..|n| - 1]);
      assert n == n[..|n| - 1] + [n[|n| - 1]];
      p
  }

  /** Everything before the first dot. */
  function Head(n: Name): (h: Name)
    ensures '.' !in h && h <= n && (h != n ==> h + "." <= n)
  {
    if n == "" || n[0] == '.' then "" else [n[0]] + Head(n[1..])
  }

  // ----- what the package is, on names and imports alone -----

  /** `n` is application code. */
  ghost predicate Application(n: Name) {
    n == "app" || "app." <= n
  }

  /** `p` is the package that `n` stands in. */
  ghost predicate Package(n: Name, p: Name) {
    p + "." <= n && '.' !in n[|p| + 1..]
  }

  /** Module `n` brings `m` in: its package, or application code it imports. */
  ghost predicate Brings(repo: Repo, n: Name, m: Name) {
    Package(n, m) || (n in repo && repo[n].Imports? && m in repo[n].names && Application(m))
  }

  /** The top-level name of an import is in the standard library or an expected dependency. */
  ghost predicate Known(stdlib: set<Name>, i: Name) {
    exists top :: (top in stdlib || top in EXTERNAL) && '.' !in top && (i == top || top + "." <= i)
  }

  /** A module that cannot enter the package. */
  ghost predicate Bad(repo: Repo, stdlib: set<Name>, n: Name) {
    || !(n in ALLOWED || n == "app.scan" || "app.scan." <= n)
    || n == "app.scan.pipeline" || n == "app.scan.llm_scan"
    || n !in repo || repo[n].Rejected?
    || exists i :: i in repo[n].names && !Application(i) && !Known(stdlib, i)
  }

  lemma {:induction false} LastDotIsUnique(n: Name, p: Name, q: Name)
    requires Package(n, p) && Package(n, q)
    ensures p == q
  {
    assert n[|p|] == '.' && n[|q|] == '.';
    assert forall k :: |p| < k < |n| ==> n[k] == n[|p| + 1..][k - |p| - 1];
    assert forall k :: |q| < k < |n| ==> n[k] == n[|q| + 1..][k - |q| - 1];
    assert p == n[..|p|] && q == n[..|q|];
  }

  lemma {:induction false} ParentIsPackage(n: Name, p: Name)
    ensures Package(n, p) <==> Parent(n) == Some(p)
  {
    if Package(n, p) {
      assert n[|p|] == '.';
      LastDotIsUnique(n, p, Parent(n).value);
    }
  }

  lemma {:induction false} KnownIff(stdlib: set<Name>, i: Name)
    ensures Known(stdlib, i) <==> Head(i) in stdlib + EXTERNAL
  {
    if Known(stdlib, i) {
      var top :| (top in stdlib || top in EXTERNAL) && '.' !in top && (i == top || top + "." <= i);
      HeadIsTop(i, top);
    }
  }

  lemma {:induction false} HeadIsTop(i: Name, top: Name)
    requires '.' !in top && (i == top || top + "." <= i)
    ensures Head(i) == top
  {
    if top == "" {
      assert i == "" || i[0] == '.';
    } else {
      assert i[0] == top[0] && top == [top[0]] + top[1..];
      HeadIsTop(i[1..], top[1..]);
    }
  }

  // ----- reachability -----

  ghost predicate Path(repo: Repo, path: seq<Name>) {
    && path != [] && path[0] == ROOT
    && forall k :: 0 < k < |path| ==> Brings(repo, path[k - 1], path[k])
  }

  ghost predicate Reachable(repo: Repo, n: Name) {
    exists path :: Path(repo, path) && path[|path| - 1] == n
  }

  ghost predicate Closed(repo: Repo, names: set<Name>) {
    forall n, m :: n in names && Brings(repo, n, m) ==> m in names
  }

  lemma {:induction false} RootIsReachable(repo: Repo)
    ensures Reachable(repo, ROOT)
  {
    assert Path(repo, [ROOT]);
  }

  lemma {:induction false} BroughtIsReachable(repo: Repo, n: Name, m: Name)
    requires Reachable(repo, n) && Brings(repo, n, m)
    ensures Reachable(repo, m)
  {
    var path :| Path(repo, path) && path[|path| - 1] == n;
    assert Path(repo, path + [m]);
    assert (path + [m])[|path + [m]| - 1] == m;
  }

  lemma {:induction false} PathStaysInside(repo: Repo, names: set<Name>, path: seq<Name>)
    requires ROOT in names && Closed(repo, names) && Path(repo, path)
    ensures path[|path| - 1] in names
  {
    if |path| > 1 {
      var shorter := path[..|path| - 1];
      assert Path(repo, shorter);
      PathStaysInside(repo, names, shorter);
      assert Brings(repo, shorter[|shorter| - 1], path[|path| - 1]);
    }
  }

  /** The reachable modules are the least set with the root that is closed under parents and imports. */
  lemma {:induction false} ReachableIsLeastClosed(repo: Repo, names: set<Name>)
    requires forall n :: n in names <==> Reachable(repo, n)
    ensures ROOT in names && Closed(repo, names)
    ensures forall other: set<Name> | ROOT in other && Closed(repo, other) :: names <= other
  {
    RootIsReachable(repo);
    forall n, m | n in names && Brings(repo, n, m) ensures m in names {
      BroughtIsReachable(repo, n, m);
    }
    forall other: set<Name> | ROOT in other && Closed(repo, other) ensures names <= other {
      forall n | n in names ensures n in other {
        ReachableInEveryClosed(repo, other, n);
      }
    }
  }

  lemma {:induction false} ReachableInEveryClosed(repo: Repo, names: set<Name>, n: Name)
    requires ROOT in names && Closed(repo, names) && Reachable(repo, n)
    ensures n in names
  {
    var path :| Path(repo, path) && path[|path| - 1] == n;
    PathStaysInside(repo, names, path);
  }

  // ----- the worklist -----

  datatype Result = Files(names: set<Name>) | ValueError

  /** Everything seen is good, and what it needs is seen or waiting. */
  ghost predicate Swept(repo: Repo, stdlib: set<Name>, seen: set<Name>, pending: seq<Name>) {
    && (forall n :: n in seen ==> !Bad(repo, stdlib, n))
    && (forall n, m :: n in seen && Brings(repo, n, m) ==> m in seen || m in pending)
    && (ROOT in seen || ROOT in pending)
    && (forall n :: n in seen || n in pending ==> Reachable(repo, n))
  }

  /** The imports of one module: application ones are appended to the worklist, others must be known. */
  method PushImports(stdlib: set<Name>, names: set<Name>, pending: seq<Name>) returns (ok: bool, pushed: seq<Name>)
    ensures ok <==> forall i :: i in names ==> Application(i) || Known(stdlib, i)
    ensures ok ==> forall n :: n in pushed <==> n in pending || (n in names && Application(n))
  {
    var todo := names;
    pushed := pending;
    while todo != {}
      invariant todo <= names
      invariant forall i :: i in names && i !in todo ==> Application(i) || Known(stdlib, i)
      invariant forall n :: n in pushed <==> n in pending || (n in names && n !in todo && Application(n))
      decreases |todo|
    {
      var imported :| imported in todo;
      KnownIff(stdlib, imported);
      if IsApplication(imported) {
        pushed := pushed + [imported];
      } else if Head(imported) !in stdlib + EXTERNAL {
        return false, pushed;
      }
      todo := todo - {imported};
    }
    ok := true;
  }

  lemma {:induction false} SplitLast(pending: seq<Name>)
    requires pending != []
    ensures forall n :: n in pending <==> n in pending[..|pending| - 1] || n == pending[|pending| - 1]
  {
    assert pending == pending[..|pending| - 1] + [pending[|pending| - 1]];
  }

  /** What a module that passed every test adds keeps the sweep. */
  lemma {:induction false} SweepOne(repo: Repo, stdlib: set<Name>, seen: set<Name>, pending: seq<Name>,
                                    pushed: seq<Name>, seen': set<Name>)
    requires pending != [] && Swept(repo, stdlib, seen, pending)
    requires var name := pending[|pending| - 1];
             && !Bad(repo, stdlib, name) && seen' == seen + {name}
             && forall n :: n in pushed <==> n in pending[..|pending| - 1] || Brings(repo, name, n)
    ensures Swept(repo, stdlib, seen', pushed)
  {
    var name := pending[|pending| - 1];
    SplitLast(pending);
    forall m | Brings(repo, name, m) ensures Reachable(repo, m) {
      BroughtIsReachable(repo, name, m);
    }
    forall n, m | n in seen' && Brings(repo, n, m) ensures m in seen' || m in pushed {
      if n in seen { assert m in seen || m in pending; }
    }
  }

  lemma {:induction false} PendingIsReachable(repo: Repo, stdlib: set<Name>, seen: set<Name>, pending: seq<Name>)
    requires pending != [] && Swept(repo, stdlib, seen, pending)
    ensures Reachable(repo, pending[|pending| - 1])
  {
    SplitLast(pending);
  }

  /** A name waiting twice is dropped the second time. */
  lemma {:induction false} DropSeen(repo: Repo, stdlib: set<Name>, seen: set<Name>, pending: seq<Name>, rest: seq<Name>)
    requires pending != [] && Swept(repo, stdlib, seen, pending) && pending[|pending| - 1] in seen
    requires rest == pending[..|pending| - 1]
    ensures Swept(repo, stdlib, seen, rest)
  {
    SplitLast(pending);
  }

  /** The tests on one new module, and the worklist with what it brings in. */
  method Visit(repo: Repo, stdlib: set<Name>, name: Name, rest: seq<Name>) returns (pushed: Option<seq<Name>>)
    ensures pushed.None? <==> Bad(repo, stdlib, name)
    ensures pushed.Some? ==> forall n :: n in pushed.value <==> n in rest || Brings(repo, name, n)
  {
    if !InBoundary(name) || Forbidden(name) {
      return None;
    }
    if name !in repo || repo[name].Rejected? {
      return None;
    }
    forall p ensures Package(name, p) <==> Parent(name) == Some(p) {
      ParentIsPackage(name, p);
    }
    var parents := if Parent(name).Some? then rest + [Parent(name).value] else rest;
    var ok, all := PushImports(stdlib, repo[name].names, parents);
    pushed := if ok then Some(all) else None;
  }

  /** An empty worklist leaves exactly the reachable modules, none of them bad. */
  lemma {:induction false} SweptEmpty(repo: Repo, stdlib: set<Name>, seen: set<Name>)
    requires Swept(repo, stdlib, seen, [])
    ensures forall n :: n in seen <==> Reachable(repo, n)
    ensures forall n :: Reachable(repo, n) ==> !Bad(repo, stdlib, n)
  {
    forall n, m | n in seen && Brings(repo, n, m) ensures m in seen {
    }
    forall n | Reachable(repo, n) ensures n in seen {
      ReachableInEveryClosed(repo, seen, n);
    }
  }

  lemma {:induction false} OneLessUnseen(repo: Repo, seen: set<Name>, name: Name)
    requires name in repo && name !in seen
    ensures |repo.Keys - (seen + {name})| < |repo.Keys - seen|
  {
    assert repo.Keys - seen == (repo.Keys - (seen + {name})) + {name};
  }

  /** One round of the worklist; `failed` when the popped module cannot enter the package. */
  method PopOne(repo: Repo, stdlib: set<Name>, pending: seq<Name>, seen: set<Name>)
    returns (failed: bool, pending': seq<Name>, seen': set<Name>)
    requires pending != [] && Swept(repo, stdlib, seen, pending)
    ensures failed ==> exists n :: Reachable(repo, n) && Bad(repo, stdlib, n)
    ensures !failed ==> Swept(repo, stdlib, seen', pending')
    ensures !failed ==> |repo.Keys - seen'| < |repo.Keys - seen| || (seen' == seen && |pending'| < |pending|)
  {
    var name := pending[|pending| - 1];
    failed, pending', seen' := false, pending[..|pending| - 1], seen;
    if name in seen {
      DropSeen(repo, stdlib, seen, pending, pending');
    } else {
      var pushed := Visit(repo, stdlib, name, pending');
      if pushed.None? {
        PendingIsReachable(repo, stdlib, seen, pending);
        failed := true;
      } else {
        pending', seen' := pushed.value, seen + {name};
        SweepOne(repo, stdlib, seen, pending, pending', seen');
        OneLessUnseen(repo, seen, name);
      }
    }
  }

  /**
   Collects the package's modules. It ends on every finite import graph, returns exactly the
   reachable modules, and fails exactly when one of them cannot enter the package.
   */
  method SourceFiles(repo: Repo, stdlib: set<Name>) returns (r: Result)
    ensures r.Files? ==> forall n :: n in r.names <==> Reachable(repo, n)
    ensures r.Files? ==> ROOT in r.names && Closed(repo, r.names)
    ensures r.ValueError? <==> exists n :: Reachable(repo, n) && Bad(repo, stdlib, n)
  {
    var pending, seen := [ROOT], {};
    RootIsReachable(repo);
    while pending != []
      invariant Swept(repo, stdlib, seen, pending)
      decreases |repo.Keys - seen|, |pending|
    {
      var failed;
      failed, pending, seen := PopOne(repo, stdlib, pending, seen);
      if failed {
        return ValueError;
      }
    }
    SweptEmpty(repo, stdlib, seen);
    ReachableIsLeastClosed(repo, seen);
    r := Files(seen);
  }
}
