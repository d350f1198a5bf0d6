/** Carrying old dependency advisories over to a new preview, once per advisory under all its aliases. */
module AliasHistory {
  import opened Options

  /** An evidence field: text, or another value of the document, named so that equal names mean equal values. */
  datatype Value = Text(s: string) | Other(value: string)

  /** The package an advisory is about: ecosystem, name and installed version. */
  datatype Package = Package(ecosystem: Value, name: Value, version: Value)

  datatype Finding = Finding(advisory: bool, package: Package, advisoryId: Value, advisoryIds: seq<Value>, text: string)

  /** The nonempty texts among the id and the alias ids. */
  function Ids(f: Finding): (ids: set<string>) {
    set v | v in [f.advisoryId] + f.advisoryIds && v.Text? && v.s != "" :: v.s
  }

  /** The ids of the advisories for `key` among the first `n` findings. */
  function SeenBefore(all: seq<Finding>, n: nat, key: Package): (ids: set<string>)
    requires n <= |all|
  {
    if n == 0 then {}
    else SeenBefore(all, n - 1, key)
         + if all[n - 1].advisory && all[n - 1].package == key then Ids(all[n - 1]) else {}
  }

  /** Prior finding `i` is an advisory none of whose ids was seen for its package. */
  predicate Appended(all: seq<Finding>, current: nat, i: nat)
    requires i < |all|
  {
    i >= current && all[i].advisory && Ids(all[i]) !! SeenBefore(all, i, all[i].package)
  }

  function AppendedBefore(all: seq<Finding>, current: nat, n: nat): (fs: seq<Finding>)
    requires n <= |all|
  {
    if n == 0 then []
    else AppendedBefore(all, current, n - 1) + if Appended(all, current, n - 1) then [all[n - 1]] else []
  }

  // ----- what is carried over, on the fields of the findings -----

  /** The advisory goes by the nonempty text `id`, as its own id or as one of its aliases. */
  ghost predicate Names(f: Finding, id: string) {
    id != "" && (f.advisoryId == Text(id) || Text(id) in f.advisoryIds)
  }

  /** Two advisories of one package and version that go by the same id. */
  ghost predicate Alias(a: Finding, b: Finding) {
    a.advisory && b.advisory && a.package == b.package && exists id :: Names(a, id) && Names(b, id)
  }

  lemma {:induction false} IdsAreNames(f: Finding, id: string)
    ensures id in Ids(f) <==> Names(f, id)
  {
    if Names(f, id) {
      assert Text(id) in [f.advisoryId] + f.advisoryIds;
    }
  }

  /** Prior finding `k` is an advisory and no finding before it, new or old, is an alias of it. */
  ghost predicate Unseen(findings: seq<Finding>, previous: seq<Finding>, k: nat)
    requires k < |previous|
  {
    && previous[k].advisory
    && (forall f :: f in findings ==> !Alias(previous[k], f))
    && (forall j: nat | j < k :: !Alias(previous[k], previous[j]))
  }

  lemma {:induction false} SeenBeforeIsUnion(all: seq<Finding>, n: nat, key: Package, id: string)
    requires n <= |all|
    ensures id in SeenBefore(all, n, key) <==>
            exists j :: 0 <= j < n && all[j].advisory && all[j].package == key && id in Ids(all[j])
  {
    if n > 0 {
      SeenBeforeIsUnion(all, n - 1, key, id);
    }
  }

  /** A prior advisory is carried over exactly when it is an alias of no earlier finding, old or new. */
  lemma {:induction false} AppendedIffNoEarlierAlias(all: seq<Finding>, current: nat, i: nat)
    requires current <= i < |all| && all[i].advisory
    ensures Appended(all, current, i) <==> forall j :: 0 <= j < i ==> !Alias(all[i], all[j])
  {
    forall id, j | 0 <= j <= i ensures id in Ids(all[j]) <==> Names(all[j], id) {
      IdsAreNames(all[j], id);
    }
    forall id | id in Ids(all[i])
      ensures id in SeenBefore(all, i, all[i].package) <==>
              exists j :: 0 <= j < i && all[j].advisory && all[j].package == all[i].package && id in Ids(all[j])
    {
      SeenBeforeIsUnion(all, i, all[i].package, id);
    }
    if !Appended(all, current, i) {
      var id :| id in Ids(all[i]) && id in SeenBefore(all, i, all[i].package);
      var j :| 0 <= j < i && all[j].advisory && all[j].package == all[i].package && id in Ids(all[j]);
      assert Alias(all[i], all[j]);
    }
  }

  lemma {:induction false} AppendedIffUnseen(findings: seq<Finding>, previous: seq<Finding>, k: nat)
    requires k < |previous|
    ensures Appended(findings + previous, |findings|, |findings| + k) <==> Unseen(findings, previous, k)
  {
    var all, i := findings + previous, |findings| + k;
    if previous[k].advisory {
      AppendedIffNoEarlierAlias(all, |findings|, i);
      assert all[i] == previous[k];
      forall j: nat | j < k ensures all[|findings| + j] == previous[j] {
      }
      if Unseen(findings, previous, k) {
        forall j | 0 <= j < i ensures !Alias(all[i], all[j]) {
          if j < |findings| { assert all[j] in findings; } else { assert all[j] == previous[j - |findings|]; }
        }
      } else if f :| f in findings && Alias(previous[k], f) {
        var j :| 0 <= j < |findings| && findings[j] == f;
        assert Alias(all[i], all[j]);
      } else {
        var j: nat :| j < k && Alias(previous[k], previous[j]);
        assert Alias(all[i], all[|findings| + j]);
      }
    }
  }

  /** `kept` lists, in order, exactly the prior findings before `n` that are carried over. */
  ghost predicate Keeps(findings: seq<Finding>, previous: seq<Finding>, n: nat, kept: seq<nat>) {
    && n <= |previous|
    && (forall i :: 0 <= i < |kept| ==> kept[i] < n)
    && (forall i, j :: 0 <= i < j < |kept| ==> kept[i] < kept[j])
    && (forall k: nat | k < n :: k in kept <==> Unseen(findings, previous, k))
  }

  /** The findings at the given places. */
  ghost function At(fs: seq<Finding>, places: seq<nat>): seq<Finding>
    requires forall i :: 0 <= i < |places| ==> places[i] < |fs|
  {
    seq(|places|, i requires 0 <= i < |places| => fs[places[i]])
  }

  lemma {:induction false} KeepsOneMore(findings: seq<Finding>, previous: seq<Finding>, n: nat, fewer: seq<nat>,
                                        kept: seq<nat>)
    requires n < |previous| && Keeps(findings, previous, n, fewer)
    requires kept == if Unseen(findings, previous, n) then fewer + [n] else fewer
    ensures Keeps(findings, previous, n + 1, kept)
  {
    forall k: nat | k < n + 1 ensures k in kept <==> Unseen(findings, previous, k) {
      assert k in fewer + [n] <==> k in fewer || k == n;
    }
  }

  lemma {:induction false} AtOneMore(fs: seq<Finding>, places: seq<nat>, n: nat)
    requires (forall i :: 0 <= i < |places| ==> places[i] < |fs|) && n < |fs|
    ensures At(fs, places + [n]) == At(fs, places) + [fs[n]]
  {
  }

  /** The places before `n` of the findings to carry over. */
  ghost function Kept(findings: seq<Finding>, previous: seq<Finding>, n: nat): (kept: seq<nat>)
    requires n <= |previous|
    ensures forall i :: 0 <= i < |kept| ==> kept[i] < n
  {
    if n == 0 then []
    else Kept(findings, previous, n - 1) + if Unseen(findings, previous, n - 1) then [n - 1] else []
  }

  lemma {:induction false} KeptKeeps(findings: seq<Finding>, previous: seq<Finding>, n: nat)
    requires n <= |previous|
    ensures Keeps(findings, previous, n, Kept(findings, previous, n))
  {
    if n > 0 {
      KeptKeeps(findings, previous, n - 1);
      KeepsOneMore(findings, previous, n - 1, Kept(findings, previous, n - 1), Kept(findings, previous, n));
    }
  }

  /** They are the ones the loop appends. */
  lemma {:induction false} AppendedAreKept(findings: seq<Finding>, previous: seq<Finding>, n: nat)
    requires n <= |previous|
    ensures AppendedBefore(findings + previous, |findings|, |findings| + n)
         == At(previous, Kept(findings, previous, n))
  {
    if n == 0 {
      NoneAppended(findings + previous, |findings|, |findings|);
    } else {
      AppendedAreKept(findings, previous, n - 1);
      AppendedIffUnseen(findings, previous, n - 1);
      AtOneMore(previous, Kept(findings, previous, n - 1), n - 1);
    }
  }

  lemma {:induction false} NoneAppended(all: seq<Finding>, current: nat, n: nat)
    requires n <= current <= |all|
    ensures AppendedBefore(all, current, n) == []
  {
    if n > 0 { NoneAppended(all, current, n - 1); }
  }

  /**
   The new findings, then the prior advisories that are not aliases of anything seen earlier, in
   order: `kept` are their places. Prior findings that are not advisories are not carried over.
   */
  method WithPriorEvidence(findings: seq<Finding>, previous: seq<Finding>)
    returns (merged: seq<Finding>, ghost kept: seq<nat>)
    ensures Keeps(findings, previous, |previous|, kept) && merged == findings + At(previous, kept)
    ensures merged == findings + AppendedBefore(findings + previous, |findings|, |findings| + |previous|)
  {
    var all := findings + previous;
    merged := findings;
    var identities: map<Package, set<string>> := map[];
    for index := 0 to |all|
      invariant merged == findings + AppendedBefore(all, |findings|, index)
      invariant forall key :: (if key in identities then identities[key] else {}) == SeenBefore(all, index, key)
    {
      var finding := all[index];
      if finding.advisory {
        var key, ids := finding.package, Ids(finding);
        var seen := if key in identities then identities[key] else {};
        assert seen == SeenBefore(all, index, key);
        if index >= |findings| && ids !! seen {
          merged := merged + [finding];
        }
        identities := identities[key := seen + ids];
      }
    }
    kept := Kept(findings, previous, |previous|);
    KeptKeeps(findings, previous, |previous|);
    AppendedAreKept(findings, previous, |previous|);
  }

  // ----- what the merge guarantees -----

  /** An advisory of the result: new, or carried over. */
  predicate Retained(all: seq<Finding>, current: nat, i: nat)
    requires i < |all|
  {
    (i < current && all[i].advisory) || Appended(all, current, i)
  }

  /** A walk down the findings, each an alias of the one before. */
  ghost predicate AliasChain(all: seq<Finding>, path: seq<nat>) {
    && path != [] && (forall k :: 0 <= k < |path| ==> path[k] < |all|)
    && forall k :: 0 < k < |path| ==> path[k] < path[k - 1] && Alias(all[path[k - 1]], all[path[k]])
  }

  /** Every advisory, carried over or dropped, is linked to a retained one by a finite chain of shared ids. */
  lemma {:induction false} DroppedIsLinkedToRetained(all: seq<Finding>, current: nat, i: nat) returns (path: seq<nat>)
    requires i < |all| && all[i].advisory
    ensures AliasChain(all, path) && path[0] == i && Retained(all, current, path[|path| - 1])
    ensures Retained(all, current, i) ==> path == [i]
    decreases i
  {
    path := [i];
    if !Retained(all, current, i) {
      AppendedIffNoEarlierAlias(all, current, i);
      var j: nat :| j < i && Alias(all[i], all[j]);
      var rest := DroppedIsLinkedToRetained(all, current, j);
      path := [i] + rest;
      forall k | 0 < k < |path| ensures path[k] < path[k - 1] && Alias(all[path[k - 1]], all[path[k]]) {
        if k > 1 { assert path[k] == rest[k - 1] && path[k - 1] == rest[k - 2]; }
      }
    }
  }

  /** No two advisories the merge appends are aliases of each other, nor of a new finding. */
  lemma {:induction false} AppendedAreNoAliases(all: seq<Finding>, current: nat, i: nat, j: nat)
    requires j < i < |all| && Appended(all, current, i)
    ensures !Alias(all[i], all[j])
  {
    AppendedIffNoEarlierAlias(all, current, i);
  }
}
