/** Matching the findings of two models by location, greedily and one to one. */
module ModelOverlap {
  import opened Options

  const SAME_PLACE_LINES: int := 3

  datatype Finding = Finding(file: Option<string>, line: Option<int>)

  datatype Place = Place(file: string, line: int)

  function Key(f: Finding): (p: Place) {
    Place(if f.file.Some? then f.file.value else "", if f.line.Some? then f.line.value else 0)
  }

  predicate SamePlace(a: Place, b: Place) {
    a.file == b.file && -SAME_PLACE_LINES <= a.line - b.line <= SAME_PLACE_LINES
  }

  function Keys(fs: seq<Finding>): (ps: seq<Place>)
    ensures |ps| == |fs| && forall i :: 0 <= i < |fs| ==> ps[i] == Key(fs[i])
  {
    seq(|fs|, i requires 0 <= i < |fs| => Key(fs[i]))
  }

  // ----- matchings -----

  /** Left indices paired with right indices, each at most once, always at the same place. */
  ghost predicate Matching(l: seq<Place>, r: seq<Place>, m: map<nat, nat>) {
    && (forall i :: i in m ==> i < |l| && m[i] < |r| && SamePlace(l[i], r[m[i]]))
    && (forall i, j :: i in m && j in m && m[i] == m[j] ==> i == j)
  }

  /** No unpaired left finding is at the place of an unpaired right one. */
  ghost predicate Maximal(l: seq<Place>, r: seq<Place>, m: map<nat, nat>) {
    forall i, j | 0 <= i < |l| && 0 <= j < |r| && i !in m && j !in m.Values :: !SamePlace(l[i], r[j])
  }

  /** An injective map has as many values as keys. */
  lemma {:induction false} ValuesOfInjective(m: map<nat, nat>)
    requires forall i, j :: i in m && j in m && m[i] == m[j] ==> i == j
    ensures |m.Values| == |m|
  {
    if m == map[] {
      assert m.Values == {};
    } else {
      var i :| i in m;
      var rest := m - {i};
      assert m.Keys == rest.Keys + {i};
      assert m.Values == rest.Values + {m[i]} by {
        forall v | v in m.Values ensures v in rest.Values + {m[i]} {
          var k :| k in m && m[k] == v;
          assert k != i ==> k in rest && rest[k] == v;
        }
      }
      assert m[i] !in rest.Values;
      ValuesOfInjective(rest);
    }
  }

  /** Right indices reached from `keys` are as many as the keys, so no more than a set that holds them. */
  lemma {:induction false} ImageFits(m: map<nat, nat>, keys: set<nat>, values: set<nat>)
    requires forall i, j :: i in m && j in m && m[i] == m[j] ==> i == j
    requires keys <= m.Keys && forall i :: i in keys ==> m[i] in values
    ensures |keys| <= |values|
  {
    var sub := map i | i in keys :: m[i];
    assert sub.Keys == keys;
    ValuesOfInjective(sub);
    assert sub.Values <= values;
    Fits(sub.Values, values);
  }

  lemma {:induction false} Fits(a: set<nat>, b: set<nat>)
    requires a <= b
    ensures |a| <= |b|
  {
    if a != {} {
      var x :| x in a;
      assert a == (a - {x}) + {x} && b == (b - {x}) + {x};
      Fits(a - {x}, b - {x});
    }
  }

  /** If each pair of `other` meets a pair of `m` on the left or on the right, `other` is at most twice as large. */
  lemma {:induction false} Cover(m: map<nat, nat>, other: map<nat, nat>)
    requires forall i, j :: i in m && j in m && m[i] == m[j] ==> i == j
    requires forall i, j :: i in other && j in other && other[i] == other[j] ==> i == j
    requires forall i :: i in other && i !in m ==> other[i] in m.Values
    ensures |other| <= 2 * |m|
  {
    var viaLeft, viaRight := other.Keys * m.Keys, other.Keys - m.Keys;
    ImageFits(other, viaRight, m.Values);
    ValuesOfInjective(m);
    Fits(viaLeft, m.Keys);
    assert other.Keys == viaLeft + viaRight;
  }

  /** A maximal matching is at least half as large as any matching. */
  lemma {:induction false} MaximalIsHalf(l: seq<Place>, r: seq<Place>, m: map<nat, nat>, other: map<nat, nat>)
    requires Matching(l, r, m) && Maximal(l, r, m) && Matching(l, r, other)
    ensures |other| <= 2 * |m|
  {
    forall i | i in other && i !in m ensures other[i] in m.Values {
      assert SamePlace(l[i], r[other[i]]);
    }
    Cover(m, other);
  }

  // ----- the greedy pass -----

  ghost predicate NothingLeft(a: Place, r: seq<Place>, matched: set<nat>) {
    forall j :: 0 <= j < |r| && j !in matched ==> !SamePlace(a, r[j])
  }

  /** `matched` are as many right findings as there are pairs, those of the pairs among them. */
  ghost predicate Marked(m: map<nat, nat>, matched: set<nat>, n: nat, size: nat) {
    && (forall i :: i in m ==> i < n && m[i] in matched)
    && (forall j :: j in matched ==> j < size)
    && |matched| == |m|
  }

  /** The left findings before `n` are paired, or have nothing left to be paired with. */
  ghost predicate Settled(l: seq<Place>, r: seq<Place>, m: map<nat, nat>, matched: set<nat>, n: nat) {
    n <= |l| && forall i :: 0 <= i < n && i !in m ==> NothingLeft(l[i], r, matched)
  }

  /** The first right index from `j` on that is untaken and at the place of `a`, or |r|. */
  function FirstFree(a: Place, r: seq<Place>, taken: set<nat>, j: nat): (k: nat)
    requires j <= |r|
    decreases |r| - j
  {
    if j == |r| || (j !in taken && SamePlace(a, r[j])) then j else FirstFree(a, r, taken, j + 1)
  }

  /** The pairs made so far, and the right findings they have taken. */
  datatype Pairing = Pairing(pairs: map<nat, nat>, taken: set<nat>)

  /** Left finding `i`, at place `a`, takes the first free right one there. */
  function Served(p: Pairing, i: nat, a: Place, r: seq<Place>): (q: Pairing) {
    var j := FirstFree(a, r, p.taken, 0);
    if j < |r| then Pairing(p.pairs[i := j], p.taken + {j}) else p
  }

  /** First come, first served. */
  function Greedy(l: seq<Place>, r: seq<Place>, n: nat): (p: Pairing)
    requires n <= |l|
  {
    if n == 0 then Pairing(map[], {}) else Served(Greedy(l, r, n - 1), n - 1, l[n - 1], r)
  }

  lemma {:induction false} FirstFreeFinds(a: Place, r: seq<Place>, taken: set<nat>, from: nat, j: nat)
    requires from <= j <= |r| && (j < |r| ==> j !in taken && SamePlace(a, r[j]))
    requires forall i :: from <= i < j ==> i in taken || !SamePlace(a, r[i])
    ensures FirstFree(a, r, taken, from) == j
    decreases j - from
  {
    if from < j { FirstFreeFinds(a, r, taken, from + 1, j); }
  }

  /** What the first free index means. */
  lemma {:induction false} FirstFreeMeans(a: Place, r: seq<Place>, taken: set<nat>, from: nat)
    requires from <= |r|
    ensures var j := FirstFree(a, r, taken, from);
            && from <= j <= |r| && (j < |r| ==> j !in taken && SamePlace(a, r[j]))
            && (forall i :: from <= i < j ==> i in taken || !SamePlace(a, r[i]))
    decreases |r| - from
  {
    if from < |r| && (from in taken || !SamePlace(a, r[from])) { FirstFreeMeans(a, r, taken, from + 1); }
  }

  /** The pairs after `n` left findings: a matching, and each of the `n` is paired or has nothing left. */
  ghost predicate PairingOk(l: seq<Place>, r: seq<Place>, p: Pairing, n: nat) {
    Matching(l, r, p.pairs) && Marked(p.pairs, p.taken, n, |r|) && Settled(l, r, p.pairs, p.taken, n)
  }

  lemma {:induction false} GreedyOk(l: seq<Place>, r: seq<Place>, n: nat)
    requires n <= |l|
    ensures PairingOk(l, r, Greedy(l, r, n), n)
  {
    if n == 0 {
      EmptyOk(l, r, Greedy(l, r, 0));
    } else {
      GreedyOk(l, r, n - 1);
      ServedOk(l, r, Greedy(l, r, n - 1), n - 1, Greedy(l, r, n));
    }
  }

  lemma {:induction false} EmptyOk(l: seq<Place>, r: seq<Place>, p: Pairing)
    requires p == Pairing(map[], {})
    ensures PairingOk(l, r, p, 0)
  {
  }

  lemma {:induction false} ServedOk(l: seq<Place>, r: seq<Place>, p: Pairing, n: nat, q: Pairing)
    requires n < |l| && PairingOk(l, r, p, n) && q == Served(p, n, l[n], r)
    ensures PairingOk(l, r, q, n + 1)
  {
    var j := FirstFree(l[n], r, p.taken, 0);
    FirstFreeMeans(l[n], r, p.taken, 0);
    if j < |r| {
      MatchingAfterPair(l, r, p.pairs, p.taken, n, j, q.pairs);
      MarkedAfterPair(p.pairs, p.taken, n, j, |r|, q.pairs);
      SettledAfterPair(l, r, p.pairs, p.taken, n, j);
    }
  }

  // ----- first come, first served -----

  /** A left finding before `i` has right finding `j`. */
  ghost predicate HeldBefore(m: map<nat, nat>, i: nat, j: nat) {
    exists k :: k in m && k < i && m[k] == j
  }

  /** Whatever left finding `i` could have had, and better than what it has, an earlier one has. */
  ghost predicate PickedFirst(l: seq<Place>, r: seq<Place>, m: map<nat, nat>, i: nat)
    requires i < |l|
  {
    forall j: nat | j < |r| && SamePlace(l[i], r[j]) && (i in m ==> j < m[i]) :: HeldBefore(m, i, j)
  }

  ghost predicate InTurn(l: seq<Place>, r: seq<Place>, p: Pairing, n: nat) {
    && n <= |l| && (forall i :: i in p.pairs ==> i < n)
    && (forall j :: j in p.taken ==> HeldBefore(p.pairs, n, j))
    && (forall i: nat | i < n :: PickedFirst(l, r, p.pairs, i))
  }

  lemma {:induction false} HeldStays(m: map<nat, nat>, n: nat, j: nat, i: nat, x: nat)
    requires (forall k :: k in m ==> k < n) && i <= n
    ensures HeldBefore(m, i, x) ==> HeldBefore(m[n := j], i, x)
  {
    if HeldBefore(m, i, x) {
      var k :| k in m && k < i && m[k] == x;
      assert m[n := j][k] == x;
    }
  }

  lemma {:induction false} ServedInTurn(l: seq<Place>, r: seq<Place>, p: Pairing, n: nat, q: Pairing)
    requires n < |l| && InTurn(l, r, p, n) && q == Served(p, n, l[n], r)
    ensures InTurn(l, r, q, n + 1)
  {
    var j := FirstFree(l[n], r, p.taken, 0);
    FirstFreeMeans(l[n], r, p.taken, 0);
    if j < |r| {
      forall i: nat, x: nat | i <= n ensures HeldBefore(p.pairs, i, x) ==> HeldBefore(q.pairs, i, x) {
        HeldStays(p.pairs, n, j, i, x);
      }
      assert n in q.pairs && q.pairs[n] == j;
      forall i: nat | i < n ensures PickedFirst(l, r, q.pairs, i) {
        assert PickedFirst(l, r, p.pairs, i);
        assert i in q.pairs <==> i in p.pairs;
      }
    }
    forall x | x in q.taken ensures HeldBefore(q.pairs, n + 1, x) {
      if x in p.taken { assert HeldBefore(p.pairs, n, x); }
    }
  }

  lemma {:induction false} GreedyInTurn(l: seq<Place>, r: seq<Place>, n: nat)
    requires n <= |l|
    ensures InTurn(l, r, Greedy(l, r, n), n)
  {
    if n > 0 {
      GreedyInTurn(l, r, n - 1);
      ServedInTurn(l, r, Greedy(l, r, n - 1), n - 1, Greedy(l, r, n));
    }
  }

  // ----- the same on the findings themselves -----

  /** The same file, a missing one being "", and at most three lines apart, a missing one being line 0. */
  ghost predicate Together(a: Finding, b: Finding) {
    && (if a.file.Some? then a.file.value else "") == (if b.file.Some? then b.file.value else "")
    && -3 <= (if a.line.Some? then a.line.value else 0) - (if b.line.Some? then b.line.value else 0) <= 3
  }

  /** Each finding in at most one pair, and the two of a pair together. */
  ghost predicate PairsUp(left: seq<Finding>, right: seq<Finding>, m: map<nat, nat>) {
    && (forall i :: i in m ==> i < |left| && m[i] < |right| && Together(left[i], right[m[i]]))
    && (forall i, j :: i in m && j in m && m[i] == m[j] ==> i == j)
  }

  /** Every left finding has the first right one it could have that no earlier left finding has, or there is none. */
  ghost predicate FirstCome(left: seq<Finding>, right: seq<Finding>, m: map<nat, nat>) {
    forall i: nat, j: nat | i < |left| && j < |right| && Together(left[i], right[j]) && (i in m ==> j < m[i]) ::
      HeldBefore(m, i, j)
  }

  lemma {:induction false} TogetherIff(a: Finding, b: Finding)
    ensures Together(a, b) <==> SamePlace(Key(a), Key(b))
  {
  }

  lemma {:induction false} PairsUpIff(left: seq<Finding>, right: seq<Finding>, m: map<nat, nat>)
    ensures PairsUp(left, right, m) <==> Matching(Keys(left), Keys(right), m)
  {
    forall i | i in m && i < |left| && m[i] < |right|
      ensures Together(left[i], right[m[i]]) <==> SamePlace(Keys(left)[i], Keys(right)[m[i]])
    {
      TogetherIff(left[i], right[m[i]]);
    }
  }

  lemma {:induction false} GreedyIsFirstCome(left: seq<Finding>, right: seq<Finding>, m: map<nat, nat>)
    requires m == Greedy(Keys(left), Keys(right), |left|).pairs
    ensures FirstCome(left, right, m)
  {
    GreedyInTurn(Keys(left), Keys(right), |left|);
    forall i: nat, j: nat | i < |left| && j < |right| && Together(left[i], right[j]) && (i in m ==> j < m[i])
      ensures HeldBefore(m, i, j)
    {
      TogetherIff(left[i], right[j]);
      assert PickedFirst(Keys(left), Keys(right), m, i);
    }
  }

  /** The greedy pairs are the first-come-first-served ones, and at least half of any others. */
  lemma {:induction false} GreedyServesFindings(left: seq<Finding>, right: seq<Finding>, m: map<nat, nat>)
    requires m == Greedy(Keys(left), Keys(right), |left|).pairs
    ensures PairsUp(left, right, m) && FirstCome(left, right, m)
    ensures forall other :: PairsUp(left, right, other) ==> |other| <= 2 * |m|
  {
    var l, r := Keys(left), Keys(right);
    GreedyIsMaximal(l, r);
    GreedyIsHalf(l, r);
    PairsUpIff(left, right, m);
    GreedyIsFirstCome(left, right, m);
    forall other | PairsUp(left, right, other) ensures |other| <= 2 * |m| {
      PairsUpIff(left, right, other);
    }
  }

  /** The finished pass: a maximal matching, no larger than either list and at least half of any other. */
  lemma {:induction false} GreedyIsMaximal(l: seq<Place>, r: seq<Place>)
    ensures var p := Greedy(l, r, |l|);
            && Matching(l, r, p.pairs) && Maximal(l, r, p.pairs)
            && |p.pairs| == |p.taken| && |p.pairs| <= |l| && |p.taken| <= |r|
  {
    var p := Greedy(l, r, |l|);
    GreedyOk(l, r, |l|);
    AtMost(p.pairs.Keys, |l|);
    AtMost(p.taken, |r|);
    MatchedAreValues(p.pairs, p.taken);
    forall i, j | 0 <= i < |l| && 0 <= j < |r| && i !in p.pairs && j !in p.pairs.Values ensures !SamePlace(l[i], r[j]) {
      assert NothingLeft(l[i], r, p.taken);
    }
  }

  lemma {:induction false} GreedyIsHalf(l: seq<Place>, r: seq<Place>)
    ensures forall other :: Matching(l, r, other) ==> |other| <= 2 * |Greedy(l, r, |l|).pairs|
  {
    GreedyIsMaximal(l, r);
    forall other | Matching(l, r, other) ensures |other| <= 2 * |Greedy(l, r, |l|).pairs| {
      MaximalIsHalf(l, r, Greedy(l, r, |l|).pairs, other);
    }
  }

  /** The first right finding that is unmatched and at the same place, or |rk|. */
  method FirstUnmatched(a: Place, rk: seq<Place>, matched: set<nat>) returns (found: nat)
    ensures found == FirstFree(a, rk, matched, 0) <= |rk|
    ensures found < |rk| ==> found !in matched
  {
    found := 0;
    while found < |rk| && (found in matched || !SamePlace(a, rk[found]))
      invariant found <= |rk| && FirstFree(a, rk, matched, 0) == FirstFree(a, rk, matched, found)
    {
      found := found + 1;
    }
  }

  /** The double loop: the right findings the greedy pass takes, and their number. */
  method MatchAll(lk: seq<Place>, rk: seq<Place>) returns (both: nat, matched: set<nat>)
    ensures matched == Greedy(lk, rk, |lk|).taken && both == |matched|
  {
    both, matched := 0, {};
    for n := 0 to |lk|
      invariant matched == Greedy(lk, rk, n).taken && both == |matched|
    {
      var found := FirstUnmatched(lk[n], rk, matched);
      if found < |rk| {
        matched := matched + {found};
        both := both + 1;
      }
    }
  }

  /**
   The counts of findings in both lists and in only one: those of the first-come-first-served
   matching, which is one to one, maximal, and at least half as large as any other.
   */
  method Overlap(left: seq<Finding>, right: seq<Finding>) returns (both: nat, onlyLeft: int, onlyRight: int)
    ensures exists m ::
              && both == |m| && PairsUp(left, right, m) && FirstCome(left, right, m)
              && m == Greedy(Keys(left), Keys(right), |left|).pairs && Maximal(Keys(left), Keys(right), m)
    ensures both + onlyLeft == |left| && both + onlyRight == |right|
    ensures onlyLeft >= 0 && onlyRight >= 0
    ensures forall other :: PairsUp(left, right, other) ==> |other| <= 2 * both
  {
    var lk, rk := Keys(left), Keys(right);
    var matched;
    both, matched := MatchAll(lk, rk);
    GreedyIsMaximal(lk, rk);
    GreedyServesFindings(left, right, Greedy(lk, rk, |lk|).pairs);
    onlyLeft, onlyRight := |lk| - both, |rk| - |matched|;
  }

  /** As many right findings are marked as are paired, so exactly the paired ones are. */
  lemma {:induction false} MatchedAreValues(m: map<nat, nat>, matched: set<nat>)
    requires forall i, j :: i in m && j in m && m[i] == m[j] ==> i == j
    requires (forall i :: i in m ==> m[i] in matched) && |matched| == |m|
    ensures matched == m.Values
  {
    ValuesOfInjective(m);
    assert m.Values <= matched;
    var extra := matched - m.Values;
    assert matched == m.Values + extra;
  }

  lemma {:induction false} MatchingAfterPair(l: seq<Place>, r: seq<Place>, m: map<nat, nat>, matched: set<nat>, n: nat,
                                             j: nat, m': map<nat, nat>)
    requires Matching(l, r, m) && Marked(m, matched, n, |r|)
    requires n < |l| && j < |r| && j !in matched && SamePlace(l[n], r[j]) && m' == m[n := j]
    ensures Matching(l, r, m')
  {
    forall i | i in m' ensures i < |l| && m'[i] < |r| && SamePlace(l[i], r[m'[i]]) {
      if i != n { assert m'[i] == m[i]; }
    }
    forall i, k | i in m' && k in m' && m'[i] == m'[k] ensures i == k {
      if i != n && k != n { assert m'[i] == m[i] && m'[k] == m[k]; }
    }
  }

  lemma {:induction false} MarkedAfterPair(m: map<nat, nat>, matched: set<nat>, n: nat, j: nat, size: nat, m': map<nat,
                                           nat>)
    requires Marked(m, matched, n, size) && j !in matched && j < size && m' == m[n := j]
    ensures Marked(m', matched + {j}, n + 1, size)
  {
    forall i | i in m' ensures i < n + 1 && m'[i] in matched + {j} {
      if i != n { assert m'[i] == m[i] && m[i] in matched; }
    }
  }

  lemma {:induction false} SettledAfterPair(l: seq<Place>, r: seq<Place>, m: map<nat, nat>, matched: set<nat>, n: nat,
                                            j: nat)
    requires Settled(l, r, m, matched, n) && n < |l|
    ensures Settled(l, r, m[n := j], matched + {j}, n + 1)
  {
    forall i | 0 <= i < n + 1 && i !in m[n := j] ensures NothingLeft(l[i], r, matched + {j}) {
      assert NothingLeft(l[i], r, matched);
    }
  }

  lemma {:induction false} AtMost(s: set<nat>, n: nat)
    requires forall i :: i in s ==> i < n
    ensures |s| <= n
  {
    if n > 0 {
      AtMost(s - {n - 1}, n - 1);
      if n - 1 in s { assert s == (s - {n - 1}) + {n - 1}; } else { assert s == s - {n - 1}; }
    } else {
      assert s == {};
    }
  }

  // ----- half is all that can be promised -----

  /** Findings in blocks of two, far apart: in each block the first left one is near both right ones. */
  function SpoiledLeft(n: nat): (l: seq<Place>)
    ensures |l| == 2 * n
  {
    seq(2 * n, i requires 0 <= i < 2 * n => Place("a", 100 * (i / 2) + if i % 2 == 0 then 4 else 1))
  }

  function SpoiledRight(n: nat): (r: seq<Place>)
    ensures |r| == 2 * n
  {
    seq(2 * n, j requires 0 <= j < 2 * n => Place("a", 100 * (j / 2) + if j % 2 == 0 then 2 else 6))
  }

  /** Who can be paired with whom: within a block, all but the second left with the second right. */
  ghost predicate Near(l: seq<Place>, r: seq<Place>, k: nat, j: nat)
    requires 2 * k + 1 < |l| && j < |r|
  {
    && (SamePlace(l[2 * k], r[j]) <==> 2 * k <= j <= 2 * k + 1)
    && (SamePlace(l[2 * k + 1], r[j]) <==> j == 2 * k)
  }

  ghost predicate Blocks(l: seq<Place>, r: seq<Place>, n: nat) {
    |l| == |r| == 2 * n && forall k: nat, j: nat | k < n && j < 2 * n :: Near(l, r, k, j)
  }

  lemma {:induction false} SpoiledBlocks(n: nat)
    ensures Blocks(SpoiledLeft(n), SpoiledRight(n), n)
  {
    forall k: nat, j: nat | k < n && j < 2 * n ensures Near(SpoiledLeft(n), SpoiledRight(n), k, j) {
      assert 2 * k / 2 == (2 * k + 1) / 2 == k;
    }
  }

  /** The first right findings of the first `k` blocks. */
  function Firsts(k: nat): (s: set<nat>) {
    if k == 0 then {} else Firsts(k - 1) + {2 * (k - 1)}
  }

  lemma {:induction false} FirstsAreFirst(k: nat)
    ensures |Firsts(k)| == k && forall j :: j in Firsts(k) ==> j < 2 * k
  {
    if k > 0 { FirstsAreFirst(k - 1); }
  }

  /** The first left finding of a block takes the first right one, which leaves the second without a partner. */
  lemma {:induction false} BlockPicks(l: seq<Place>, r: seq<Place>, n: nat, k: nat, taken: set<nat>)
    requires Blocks(l, r, n) && k < n && forall j :: j in taken ==> j < 2 * k
    ensures FirstFree(l[2 * k], r, taken, 0) == 2 * k
    ensures FirstFree(l[2 * k + 1], r, taken + {2 * k}, 0) == 2 * n
  {
    forall j: nat | j < 2 * n
      ensures SamePlace(l[2 * k], r[j]) <==> 2 * k <= j <= 2 * k + 1
      ensures SamePlace(l[2 * k + 1], r[j]) <==> j == 2 * k
    {
      assert Near(l, r, k, j);
    }
    FirstFreeFinds(l[2 * k], r, taken, 0, 2 * k);
    FirstFreeFinds(l[2 * k + 1], r, taken + {2 * k}, 0, 2 * n);
  }

  /** One finding that takes `j`, and one that takes nothing. */
  lemma {:induction false} TakesOne(l: seq<Place>, r: seq<Place>, i: nat, taken: set<nat>, j: nat)
    requires i + 1 < |l| && j < |r| && Takes(l, r, i, taken)
    requires FirstFree(l[i], r, taken, 0) == j && FirstFree(l[i + 1], r, taken + {j}, 0) == |r|
    ensures Takes(l, r, i + 2, taken + {j})
  {
    assert Greedy(l, r, i + 1).taken == taken + {j};
  }

  ghost predicate Takes(l: seq<Place>, r: seq<Place>, i: nat, taken: set<nat>) {
    i <= |l| && Greedy(l, r, i).taken == taken
  }

  lemma {:induction false} BlockTakesOne(l: seq<Place>, r: seq<Place>, n: nat, k: nat, taken: set<nat>, next: nat)
    requires Blocks(l, r, n) && k < n && next == 2 * k + 2 && forall j :: j in taken ==> j < 2 * k
    requires Takes(l, r, 2 * k, taken)
    ensures Takes(l, r, next, taken + {2 * k})
  {
    BlockPicks(l, r, n, k, taken);
    TakesOne(l, r, 2 * k, taken, 2 * k);
  }

  /** Every block has its first right finding taken, and not its second. */
  lemma {:induction false} GreedySpoils(l: seq<Place>, r: seq<Place>, n: nat, k: nat)
    requires Blocks(l, r, n) && k <= n
    ensures Takes(l, r, 2 * k, Firsts(k))
  {
    if k > 0 {
      GreedySpoils(l, r, n, k - 1);
      FirstsAreFirst(k - 1);
      BlockTakesOne(l, r, n, k - 1, Firsts(k - 1), 2 * k);
    }
  }

  /** In every block the two left findings cross over to the two right ones. */
  function Crossed(n: nat): (m: map<nat, nat>) {
    map i: nat | 0 <= i < 2 * n :: if i % 2 == 0 then i + 1 else i - 1
  }

  lemma {:induction false} CrossedMatches(n: nat)
    ensures Matching(SpoiledLeft(n), SpoiledRight(n), Crossed(n))
  {
    var m := Crossed(n);
    SpoiledBlocks(n);
    forall i | i in m ensures m[i] < 2 * n && SamePlace(SpoiledLeft(n)[i], SpoiledRight(n)[m[i]]) {
      assert Near(SpoiledLeft(n), SpoiledRight(n), i / 2, m[i]);
    }
  }

  lemma {:induction false} AllBelow(s: set<nat>, n: nat)
    requires forall i: nat :: i in s <==> i < n
    ensures |s| == n
  {
    if n > 0 {
      AllBelow(s - {n - 1}, n - 1);
      assert s == (s - {n - 1}) + {n - 1};
    } else {
      assert s == {};
    }
  }

  /** For every n there are lists on which the pass counts n pairs where 2n are possible. */
  lemma {:induction false} GreedyCanLoseHalf(n: nat)
    ensures |Greedy(SpoiledLeft(n), SpoiledRight(n), 2 * n).pairs| == n
    ensures Matching(SpoiledLeft(n), SpoiledRight(n), Crossed(n)) && |Crossed(n)| == 2 * n
  {
    SpoiledBlocks(n);
    GreedySpoils(SpoiledLeft(n), SpoiledRight(n), n, n);
    FirstsAreFirst(n);
    GreedyIsMaximal(SpoiledLeft(n), SpoiledRight(n));
    CrossedMatches(n);
    AllBelow(Crossed(n).Keys, 2 * n);
  }
}
