/**
 Rewriting import sites by byte offset: positions come from per-line prefix sums, and the
 edits are spliced in from the last to the first so that earlier offsets stay true.
 */
module Relocation {
  type Byte = b: int | 0 <= b < 256

  type Bytes = seq<Byte>

  const LF: Byte := 10
  const CR: Byte := 13

  // ----- lines and offsets -----

  /** The length of the first line with its terminator: LF, CR or CR LF. */
  function LineLength(s: Bytes): (n: nat)
    ensures n <= |s| && (s != [] ==> n > 0)
  {
    if s == [] then 0
    else if s[0] == LF then 1
    else if s[0] == CR then (if |s| > 1 && s[1] == LF then 2 else 1)
    else 1 + LineLength(s[1..])
  }

  function SplitLines(s: Bytes): (lines: seq<Bytes>)
    decreases |s|
  {
    if s == [] then [] else [s[..LineLength(s)]] + SplitLines(s[LineLength(s)..])
  }

  function Flatten(lines: seq<Bytes>): (s: Bytes) {
    if lines == [] then [] else lines[0] + Flatten(lines[1..])
  }

  lemma {:induction false} FlattenCons(line: Bytes, lines: seq<Bytes>)
    ensures Flatten([line] + lines) == line + Flatten(lines)
  {
    assert ([line] + lines)[1..] == lines;
  }

  lemma {:induction false} FlattenSplit(s: Bytes)
    ensures Flatten(SplitLines(s)) == s
    decreases |s|
  {
    if s != [] {
      var n := LineLength(s);
      FlattenSplit(s[n..]);
      FlattenCons(s[..n], SplitLines(s[n..]));
      assert s == s[..n] + s[n..];
    }
  }

  // ----- what a line is, by the terminators alone -----

  /** A terminator ends just before `p`: an LF, or a CR that no LF follows. */
  ghost predicate BreakBefore(s: Bytes, p: nat)
    requires 0 < p <= |s|
  {
    s[p - 1] == 10 || (s[p - 1] == 13 && !(p < |s| && s[p] == 10))
  }

  /** The terminators that end in the first `p` bytes. */
  ghost function Breaks(s: Bytes, p: nat): nat
    requires p <= |s|
  {
    if p == 0 then 0 else Breaks(s, p - 1) + if BreakBefore(s, p) then 1 else 0
  }

  /** Line `line`, counted from 1, starts at `p`: at the beginning, or right behind a terminator, the (line - 1)-th. */
  ghost predicate StartsLine(s: Bytes, line: nat, p: int) {
    0 <= p <= |s| && (p == 0 || BreakBefore(s, p)) && Breaks(s, p) == line - 1
  }

  lemma {:induction false} BreaksGrow(s: Bytes, p: nat, q: nat)
    requires p < q <= |s| && BreakBefore(s, q)
    ensures Breaks(s, p) < Breaks(s, q)
  {
    if p < q - 1 { BreaksUpTo(s, p, q - 1); }
  }

  lemma {:induction false} BreaksUpTo(s: Bytes, p: nat, q: nat)
    requires p <= q <= |s|
    ensures Breaks(s, p) <= Breaks(s, q)
    decreases q
  {
    if p < q { BreaksUpTo(s, p, q - 1); }
  }

  /** So a line starts in one place only. */
  lemma {:induction false} LineStartIsUnique(s: Bytes, line: nat, p: int, q: int)
    requires StartsLine(s, line, p) && StartsLine(s, line, q)
    ensures p == q
  {
    if p < q { BreaksGrow(s, p, q); }
    if q < p { BreaksGrow(s, q, p); }
  }

  /** Counting on behind a prefix. */
  lemma {:induction false} BreaksBehind(s: Bytes, n: nat, p: nat)
    requires n + p <= |s|
    ensures Breaks(s, n + p) == Breaks(s, n) + Breaks(s[n..], p)
    ensures p > 0 ==> (BreakBefore(s, n + p) <==> BreakBefore(s[n..], p))
    decreases p
  {
    if p > 0 { BreaksBehind(s, n, p - 1); }
  }

  /** The first line has no terminator but its own. */
  lemma {:induction false} FirstLine(s: Bytes)
    requires s != []
    ensures forall p :: 0 < p < LineLength(s) ==> !BreakBefore(s, p)
    ensures LineLength(s) < |s| ==> BreakBefore(s, LineLength(s))
  {
    if s[0] != LF && s[0] != CR && |s| > 1 {
      FirstLine(s[1..]);
      forall p | 1 < p <= LineLength(s) ensures BreakBefore(s, p) <==> BreakBefore(s[1..], p - 1) {
      }
    }
  }

  lemma {:induction false} NoBreaks(s: Bytes, p: nat)
    requires p <= |s| && forall q :: 0 < q <= p ==> !BreakBefore(s, q)
    ensures Breaks(s, p) == 0
  {
    if p > 0 { NoBreaks(s, p - 1); }
  }

  /** Up to the end of the first line there is one terminator, or none if the text ends without. */
  lemma {:induction false} FirstLineBreaks(s: Bytes)
    requires s != []
    ensures Breaks(s, LineLength(s)) == if BreakBefore(s, LineLength(s)) then 1 else 0
    ensures LineLength(s) < |s| ==> BreakBefore(s, LineLength(s))
  {
    FirstLine(s);
    NoBreaks(s, LineLength(s) - 1);
  }

  /** Line k + 1 of the text starts where the first k lines of the split end. */
  lemma {:induction false} SplitStartsLines(s: Bytes, k: nat)
    requires k < |SplitLines(s)|
    ensures StartsLine(s, k + 1, |Flatten(SplitLines(s)[..k])|)
    decreases |s|
  {
    var n, lines := LineLength(s), SplitLines(s);
    if k > 0 {
      var rest := SplitLines(s[n..]);
      SplitStartsLines(s[n..], k - 1);
      assert lines[..k] == [s[..n]] + rest[..k - 1];
      FlattenCons(s[..n], rest[..k - 1]);
      FirstLineBreaks(s);
      BreaksBehind(s, n, |Flatten(rest[..k - 1])|);
    }
  }

  /** There are as many lines as terminators, and one more for a text that ends without. */
  lemma {:induction false} LineCount(s: Bytes)
    ensures |SplitLines(s)| == Breaks(s, |s|) + if s != [] && !BreakBefore(s, |s|) then 1 else 0
    decreases |s|
  {
    if s != [] {
      var n := LineLength(s);
      LineCount(s[n..]);
      FirstLineBreaks(s);
      BreaksBehind(s, n, |s| - n);
    }
  }

  /** No LF or CR stands in a line but at its end, as LF, CR or CR LF. */
  ghost predicate EndsOnly(line: Bytes) {
    line != [] && forall i: nat | i < |line| - 1 :: Inner(line, i)
  }

  /** Neither a terminator nor part of one, but for the CR of a final CR LF. */
  ghost predicate Inner(line: Bytes, i: nat)
    requires i < |line| - 1
  {
    line[i] != 10 && (line[i] == 13 ==> i == |line| - 2 && line[i + 1] == 10)
  }

  lemma {:induction false} FirstLineEndsOnly(s: Bytes)
    requires s != []
    ensures EndsOnly(s[..LineLength(s)])
    ensures var n := LineLength(s);
            n < |s| ==> s[n - 1] == 10 || (s[n - 1] == 13 && s[n] != 10)
  {
    if s[0] != LF && s[0] != CR && |s| > 1 {
      FirstLineEndsOnly(s[1..]);
      var line, rest := s[..LineLength(s)], s[1..][..LineLength(s[1..])];
      assert line == [s[0]] + rest;
      forall i: nat | i < |line| - 1 ensures Inner(line, i) {
        if i > 0 { assert Inner(rest, i - 1); }
      }
    }
  }

  /** Every line but the last ends in a terminator, no line has another one, and no CR LF is cut. */
  lemma {:induction false} LinesEndOnly(s: Bytes, k: nat)
    requires k < |SplitLines(s)|
    ensures var lines := SplitLines(s);
            && EndsOnly(lines[k])
            && (k < |lines| - 1 ==>
                  && (lines[k][|lines[k]| - 1] == 10 || lines[k][|lines[k]| - 1] == 13)
                  && lines[k + 1] != []
                  && !(lines[k][|lines[k]| - 1] == 13 && lines[k + 1][0] == 10))
    decreases |s|
  {
    var n := LineLength(s);
    FirstLineEndsOnly(s);
    if k > 0 { LinesEndOnly(s[n..], k - 1); }
  }

  /** Flattening a prefix of the lines gives a prefix of the text. */
  lemma {:induction false} FlattenPrefix(lines: seq<Bytes>, k: nat)
    requires k <= |lines|
    ensures |Flatten(lines[..k])| <= |Flatten(lines)|
    ensures Flatten(lines) == Flatten(lines[..k]) + Flatten(lines[k..])
  {
    if k == 0 {
      assert lines[0..] == lines;
    } else {
      FlattenPrefix(lines[1..], k - 1);
      assert lines[..k][0] == lines[0] && lines[..k][1..] == lines[1..][..k - 1];
      assert lines[k..] == lines[1..][k - 1..];
    }
  }

  lemma {:induction false} FlattenSnoc(lines: seq<Bytes>, k: nat)
    requires k < |lines|
    ensures |Flatten(lines[..k + 1])| == |Flatten(lines[..k])| + |lines[k]|
  {
    var ls := lines[..k + 1];
    FlattenPrefix(ls, k);
    assert ls[..k] == lines[..k] && ls[k..] == [lines[k]];
    assert Flatten([lines[k]]) == lines[k] + Flatten([lines[k]][1..]);
  }

  /** offsets[k] is where line k starts. */
  method Offsets(lines: seq<Bytes>) returns (offsets: seq<nat>)
    ensures |offsets| == |lines| + 1
    ensures forall k :: 0 <= k <= |lines| ==> offsets[k] == |Flatten(lines[..k])|
  {
    offsets := [0];
    for i := 0 to |lines|
      invariant |offsets| == i + 1
      invariant forall k :: 0 <= k <= i ==> offsets[k] == |Flatten(lines[..k])|
    {
      FlattenSnoc(lines, i);
      offsets := offsets + [offsets[i] + |lines[i]|];
    }
  }

  /** A line and column address the byte the offset table says. */
  lemma {:induction false} OffsetAddressesColumn(lines: seq<Bytes>, k: nat, col: nat)
    requires k < |lines| && col < |lines[k]|
    ensures |Flatten(lines[..k])| + col < |Flatten(lines)|
    ensures Flatten(lines)[|Flatten(lines[..k])| + col] == lines[k][col]
  {
    FlattenPrefix(lines, k);
    assert Flatten(lines[k..]) == lines[k] + Flatten(lines[k..][1..]);
  }

  // ----- edits -----

  datatype Edit = Edit(start: nat, end: nat, text: Bytes)

  ghost predicate Inside(src: Bytes, e: Edit) {
    e.start < e.end <= |src|
  }

  ghost predicate Apart(a: Edit, b: Edit) {
    a.end <= b.start || b.end <= a.start
  }

  /** Every edit replaces a nonempty span of the source, and no two spans overlap. */
  ghost predicate Disjoint(src: Bytes, edits: seq<Edit>) {
    && (forall e :: e in edits ==> Inside(src, e))
    && (forall i, j :: 0 <= i < j < |edits| ==> Apart(edits[i], edits[j]))
  }

  lemma {:induction false} DistinctEditsAreApart(src: Bytes, edits: seq<Edit>, a: Edit, b: Edit)
    requires Disjoint(src, edits) && a in edits && b in edits && a != b
    ensures Apart(a, b)
  {
    var i :| 0 <= i < |edits| && edits[i] == a;
    var j :| 0 <= j < |edits| && edits[j] == b;
    if i < j {
      assert Apart(edits[i], edits[j]);
    } else {
      assert Apart(edits[j], edits[i]);
    }
  }

  /**
   All edits at once, on the original bytes: reading from `pos`, a span that starts here is
   replaced and skipped, any other byte is copied. The order of `edits` plays no part.
   */
  ghost function Substitute(src: Bytes, edits: seq<Edit>, pos: nat): Bytes
    requires forall e :: e in edits ==> Inside(src, e)
    decreases |src| - pos
  {
    if pos >= |src| then []
    else if exists e :: e in edits && e.start == pos then
      var e :| e in edits && e.start == pos;
      e.text + Substitute(src, edits, e.end)
    else [src[pos]] + Substitute(src, edits, pos + 1)
  }

  lemma {:induction false} SubstituteAtStart(src: Bytes, edits: seq<Edit>, e: Edit)
    requires Disjoint(src, edits) && e in edits
    ensures Substitute(src, edits, e.start) == e.text + Substitute(src, edits, e.end)
  {
    forall other | other in edits && other != e ensures other.start != e.start {
      DistinctEditsAreApart(src, edits, e, other);
      assert Inside(src, other);
    }
  }

  lemma {:induction false} SubstituteCopiesOne(src: Bytes, edits: seq<Edit>, pos: nat)
    requires forall e :: e in edits ==> Inside(src, e)
    requires pos < |src| && forall e :: e in edits ==> e.start != pos
    ensures Substitute(src, edits, pos) == [src[pos]] + Substitute(src, edits, pos + 1)
  {
  }

  /** Where no span starts the source is copied. */
  lemma {:induction false} SubstituteCopies(src: Bytes, edits: seq<Edit>, from: nat, to: nat)
    requires forall e :: e in edits ==> Inside(src, e)
    requires from <= to <= |src|
    requires forall e :: e in edits ==> !(from <= e.start < to)
    ensures Substitute(src, edits, from) == src[from..to] + Substitute(src, edits, to)
    decreases |src| - from
  {
    if from < to {
      SubstituteCopiesOne(src, edits, from);
      SubstituteCopies(src, edits, from + 1, to);
      assert src[from..to] == [src[from]] + src[from + 1..to];
    }
  }

  // ----- descending splices -----

  ghost predicate Descending(edits: seq<Edit>) {
    forall i, j :: 0 <= i < j < |edits| ==> edits[i].start >= edits[j].start
  }

  function Insert(e: Edit, sorted: seq<Edit>): (r: seq<Edit>) {
    if sorted == [] || e.start >= sorted[0].start then [e] + sorted else [sorted[0]] + Insert(e, sorted[1..])
  }

  /** sorted(edits, reverse=True): on disjoint spans the start alone decides. */
  function SortDescending(edits: seq<Edit>): (r: seq<Edit>) {
    if edits == [] then [] else Insert(edits[0], SortDescending(edits[1..]))
  }

  lemma {:induction false} InsertKeeps(e: Edit, sorted: seq<Edit>)
    ensures multiset(Insert(e, sorted)) == multiset(sorted) + multiset{e}
  {
    if sorted != [] && e.start < sorted[0].start {
      InsertKeeps(e, sorted[1..]);
      assert sorted == [sorted[0]] + sorted[1..];
    }
  }

  lemma {:induction false} InsertSorts(e: Edit, sorted: seq<Edit>)
    requires Descending(sorted)
    ensures Descending(Insert(e, sorted)) && multiset(Insert(e, sorted)) == multiset(sorted) + multiset{e}
  {
    InsertKeeps(e, sorted);
    if sorted != [] && e.start < sorted[0].start {
      var rest := Insert(e, sorted[1..]);
      InsertSorts(e, sorted[1..]);
      forall i | 0 <= i < |rest| ensures rest[i].start <= sorted[0].start {
        assert rest[i] in multiset(rest);
        assert rest[i] == e || rest[i] in sorted[1..];
      }
    }
  }

  lemma {:induction false} SortSorts(edits: seq<Edit>)
    ensures Descending(SortDescending(edits)) && multiset(SortDescending(edits)) == multiset(edits)
  {
    if edits != [] {
      SortSorts(edits[1..]);
      InsertSorts(edits[0], SortDescending(edits[1..]));
      assert edits == [edits[0]] + edits[1..];
    }
  }

  /** Sorting keeps the spans apart: they are the same ones. */
  lemma {:induction false} SortKeepsDisjoint(src: Bytes, edits: seq<Edit>)
    requires Disjoint(src, edits)
    ensures Disjoint(src, SortDescending(edits))
    ensures forall e :: e in edits <==> e in SortDescending(edits)
  {
    var sorted := SortDescending(edits);
    SortSorts(edits);
    forall e ensures e in edits <==> e in sorted {
      assert e in multiset(edits) <==> e in multiset(sorted);
    }
    forall i, j | 0 <= i < j < |sorted| ensures Apart(sorted[i], sorted[j]) {
      OccursOnce(src, edits, sorted[i]);
      if sorted[i] == sorted[j] {
        OccursTwice(sorted, i, j);
        assert false;
      }
      DistinctEditsAreApart(src, edits, sorted[i], sorted[j]);
    }
  }

  lemma {:induction false} OccursTwice(s: seq<Edit>, i: nat, j: nat)
    requires i < j < |s| && s[i] == s[j]
    ensures multiset(s)[s[i]] >= 2
  {
    assert s == s[..i] + [s[i]] + s[i + 1..j] + [s[j]] + s[j + 1..];
  }

  lemma {:induction false} OccursOnce(src: Bytes, edits: seq<Edit>, e: Edit)
    requires Disjoint(src, edits)
    ensures multiset(edits)[e] <= 1
  {
    if edits != [] {
      assert edits == [edits[0]] + edits[1..];
      OccursOnce(src, edits[1..], e);
      forall j | 0 <= j < |edits[1..]| ensures edits[1..][j] != edits[0] {
        assert Apart(edits[0], edits[j + 1]) && Inside(src, edits[0]);
      }
      assert edits[0] !in multiset(edits[1..]);
    }
  }

  /** The spliced bytes so far: the source up to `cut`, and everything after it substituted. */
  ghost predicate SplicedFrom(raw: Bytes, src: Bytes, edits: seq<Edit>, cut: nat)
    requires forall e :: e in edits ==> Inside(src, e)
  {
    cut <= |src| && raw == src[..cut] + Substitute(src, edits, cut)
  }

  lemma {:induction false} SpliceStep(raw: Bytes, src: Bytes, edits: seq<Edit>, cut: nat, e: Edit)
    requires Disjoint(src, edits) && SplicedFrom(raw, src, edits, cut) && e in edits && e.end <= cut
    requires forall other :: other in edits ==> !(e.end <= other.start < cut)
    ensures e.end <= |raw| && SplicedFrom(raw[..e.start] + e.text + raw[e.end..], src, edits, e.start)
  {
    SubstituteCopies(src, edits, e.end, cut);
    SubstituteAtStart(src, edits, e);
    SpliceBytes(raw, src, cut, e, Substitute(src, edits, cut));
  }

  lemma {:induction false} SpliceBytes(raw: Bytes, src: Bytes, cut: nat, e: Edit, rest: Bytes)
    requires e.start <= e.end <= cut <= |src| && raw == src[..cut] + rest
    ensures raw[..e.start] == src[..e.start] && raw[e.end..] == src[e.end..cut] + rest
  {
    assert src[..cut] == src[..e.end] + src[e.end..cut];
  }

  /** Splicing from the last span to the first equals substituting all of them at once. */
  method SpliceAll(src: Bytes, edits: seq<Edit>) returns (raw: Bytes)
    requires Disjoint(src, edits)
    ensures raw == Substitute(src, edits, 0)
  {
    var sorted := SortDescending(edits);
    SortSorts(edits);
    SortKeepsDisjoint(src, edits);
    raw := src;
    ghost var cut: nat := |src|;
    forall j | 0 <= j < |sorted| ensures Inside(src, sorted[j]) {
    }
    assert Substitute(src, edits, cut) == [];
    for k := 0 to |sorted|
      invariant SplicedFrom(raw, src, edits, cut)
      invariant forall j :: k <= j < |sorted| ==> sorted[j].end <= cut
      invariant forall j :: 0 <= j < k ==> sorted[j].start >= cut
    {
      var e := sorted[k];
      NextSpan(src, edits, sorted, k, cut);
      SpliceStep(raw, src, edits, cut, e);
      raw := raw[..e.start] + e.text + raw[e.end..];
      cut := e.start;
    }
    SubstituteCopies(src, edits, 0, cut);
  }

  /** The next span in descending order: no span starts between it and the cut, the rest end before it. */
  lemma {:induction false} NextSpan(src: Bytes, edits: seq<Edit>, sorted: seq<Edit>, k: nat, cut: nat)
    requires Disjoint(src, sorted) && Descending(sorted) && k < |sorted|
    requires forall e :: e in edits <==> e in sorted
    requires forall j :: 0 <= j < k ==> sorted[j].start >= cut
    ensures forall other :: other in edits ==> !(sorted[k].end <= other.start < cut)
    ensures forall j :: k < j < |sorted| ==> sorted[j].end <= sorted[k].start
  {
    assert Inside(src, sorted[k]);
    forall other | other in edits ensures !(sorted[k].end <= other.start < cut) {
      var j :| 0 <= j < |sorted| && sorted[j] == other;
      if j > k { assert sorted[j].start <= sorted[k].start; }
    }
    forall j | k < j < |sorted| ensures sorted[j].end <= sorted[k].start {
      assert Apart(sorted[k], sorted[j]) && Inside(src, sorted[j]) && sorted[k].start >= sorted[j].start;
    }
  }

  // ----- what a simultaneous substitution keeps -----

  function Newlines(s: Bytes): (n: nat) {
    if s == [] then 0 else (if s[0] == LF then 1 else 0) + Newlines(s[1..])
  }

  lemma {:induction false} NewlinesConcat(a: Bytes, b: Bytes)
    ensures Newlines(a + b) == Newlines(a) + Newlines(b)
  {
    if a == [] {
      assert a + b == b;
    } else {
      NewlinesConcat(a[1..], b);
      assert (a + b)[1..] == a[1..] + b;
    }
  }

  /** Newlines of a piece and of what follows it. */
  lemma {:induction false} NewlinesSplit(s: Bytes, from: nat, to: nat)
    requires from <= to <= |s|
    ensures Newlines(s[from..]) == Newlines(s[from..to]) + Newlines(s[to..])
  {
    assert s[from..] == s[from..to] + s[to..];
    NewlinesConcat(s[from..to], s[to..]);
  }

  /** The weights of the edits that end at or before `pos`. */
  ghost function Tally(edits: seq<Edit>, pos: nat, weight: Edit -> int): int {
    if edits == [] then 0 else (if edits[0].end <= pos then weight(edits[0]) else 0) + Tally(edits[1..], pos, weight)
  }

  function LengthChange(e: Edit): (d: int) {
    |e.text| - (e.end - e.start)
  }

  /** By how much the edits that end at or before `pos` move what follows. */
  ghost function Shift(edits: seq<Edit>, pos: nat): int {
    Tally(edits, pos, LengthChange)
  }

  lemma {:induction false} TallyUnchanged(edits: seq<Edit>, from: nat, to: nat, weight: Edit -> int)
    requires from <= to && forall e :: e in edits ==> !(from < e.end <= to)
    ensures Tally(edits, to, weight) == Tally(edits, from, weight)
  {
    if edits != [] { TallyUnchanged(edits[1..], from, to, weight); }
  }

  /** Passing exactly the span at index `i` adds its own weight. */
  lemma {:induction false} TallyPasses(src: Bytes, edits: seq<Edit>, i: nat, weight: Edit -> int)
    requires Disjoint(src, edits) && i < |edits|
    ensures Tally(edits, edits[i].end, weight) == Tally(edits, edits[i].start, weight) + weight(edits[i])
  {
    var e := edits[i];
    assert Inside(src, e) && Inside(src, edits[0]);
    if i == 0 {
      forall other | other in edits[1..] ensures !(e.start < other.end <= e.end) {
        var j :| 0 <= j < |edits[1..]| && edits[1..][j] == other;
        assert Apart(edits[0], edits[j + 1]) && Inside(src, edits[j + 1]);
      }
      TallyUnchanged(edits[1..], e.start, e.end, weight);
    } else {
      assert Disjoint(src, edits[1..]) by {
        forall j, l | 0 <= j < l < |edits[1..]| ensures Apart(edits[1..][j], edits[1..][l]) {
          assert Apart(edits[j + 1], edits[l + 1]);
        }
      }
      TallyPasses(src, edits[1..], i - 1, weight);
      assert Apart(edits[0], edits[i]);
    }
  }

  /** A byte outside all spans passes no edit. */
  lemma {:induction false} TallyPassesByte(src: Bytes, edits: seq<Edit>, pos: nat, weight: Edit -> int)
    requires Disjoint(src, edits) && OutsideAll(edits, pos) && forall e :: e in edits ==> e.start != pos
    ensures OutsideAll(edits, pos + 1) && Tally(edits, pos + 1, weight) == Tally(edits, pos, weight)
  {
    forall e | e in edits ensures !(pos < e.end <= pos + 1) && !(e.start < pos + 1 < e.end) {
      assert Inside(src, e);
    }
    TallyUnchanged(edits, pos, pos + 1, weight);
  }

  lemma {:induction false} TallyAtZero(src: Bytes, edits: seq<Edit>, weight: Edit -> int)
    requires forall e :: e in edits ==> Inside(src, e)
    ensures Tally(edits, 0, weight) == 0
  {
    if edits != [] {
      assert Inside(src, edits[0]);
      TallyAtZero(src, edits[1..], weight);
    }
  }

  ghost predicate OutsideAll(edits: seq<Edit>, pos: nat) {
    forall e :: e in edits ==> !(e.start < pos < e.end)
  }

  /** What has been emitted when the scan stands at `pos`, and what is still to come. */
  ghost predicate Emitted(src: Bytes, edits: seq<Edit>, from: nat, pos: nat)
    requires forall e :: e in edits ==> Inside(src, e)
  {
    var done := pos - from + Shift(edits, pos) - Shift(edits, from);
    && 0 <= done <= |Substitute(src, edits, from)|
    && Substitute(src, edits, from)[done..] == Substitute(src, edits, pos)
  }

  /** One step of the scan: over a span, or over a byte outside all spans. */
  lemma {:induction false} SpanEmitted(src: Bytes, edits: seq<Edit>, e: Edit)
    requires Disjoint(src, edits) && e in edits
    ensures Emitted(src, edits, e.start, e.end)
  {
    var i :| 0 <= i < |edits| && edits[i] == e;
    TallyPasses(src, edits, i, LengthChange);
    SubstituteAtStart(src, edits, e);
  }

  lemma {:induction false} ByteEmitted(src: Bytes, edits: seq<Edit>, from: nat)
    requires Disjoint(src, edits) && from < |src| && OutsideAll(edits, from)
    requires forall e :: e in edits ==> e.start != from
    ensures OutsideAll(edits, from + 1) && Emitted(src, edits, from, from + 1)
  {
    TallyPassesByte(src, edits, from, LengthChange);
  }

  lemma {:induction false} EmittedCompose(src: Bytes, edits: seq<Edit>, from: nat, mid: nat, pos: nat)
    requires forall e :: e in edits ==> Inside(src, e)
    requires Emitted(src, edits, from, mid) && Emitted(src, edits, mid, pos)
    ensures Emitted(src, edits, from, pos)
  {
    var a, b := mid - from + Shift(edits, mid) - Shift(edits, from), pos - mid + Shift(edits, pos) - Shift(edits, mid);
    assert Substitute(src, edits, from)[a + b..] == Substitute(src, edits, from)[a..][b..];
  }

  lemma {:induction false} EmittedSelf(src: Bytes, edits: seq<Edit>, pos: nat)
    requires forall e :: e in edits ==> Inside(src, e)
    ensures Emitted(src, edits, pos, pos)
  {
    assert Substitute(src, edits, pos)[0..] == Substitute(src, edits, pos);
  }

  lemma {:induction false} OverSpan(src: Bytes, edits: seq<Edit>, from: nat, e: Edit, pos: nat)
    requires Disjoint(src, edits) && e in edits && e.start == from && Emitted(src, edits, e.end, pos)
    ensures Emitted(src, edits, from, pos)
  {
    SpanEmitted(src, edits, e);
    EmittedCompose(src, edits, from, e.end, pos);
  }

  lemma {:induction false} OverByte(src: Bytes, edits: seq<Edit>, from: nat, pos: nat)
    requires Disjoint(src, edits) && from < |src| && OutsideAll(edits, from)
    requires forall e :: e in edits ==> e.start != from
    requires Emitted(src, edits, from + 1, pos)
    ensures Emitted(src, edits, from, pos)
  {
    ByteEmitted(src, edits, from);
    EmittedCompose(src, edits, from, from + 1, pos);
  }

  lemma {:induction false} ScanEmits(src: Bytes, edits: seq<Edit>, from: nat, pos: nat)
    requires Disjoint(src, edits) && from <= pos <= |src| && OutsideAll(edits, from) && OutsideAll(edits, pos)
    ensures Emitted(src, edits, from, pos)
    decreases |src| - from
  {
    if from == pos {
      EmittedSelf(src, edits, pos);
    } else if e :| e in edits && e.start == from {
      assert Inside(src, e);
      EndsAreOutside(src, edits, e);
      ScanEmits(src, edits, e.end, pos);
      OverSpan(src, edits, from, e, pos);
    } else {
      TallyPassesByte(src, edits, from, LengthChange);
      ScanEmits(src, edits, from + 1, pos);
      OverByte(src, edits, from, pos);
    }
  }

  lemma {:induction false} EndsAreOutside(src: Bytes, edits: seq<Edit>, e: Edit)
    requires Disjoint(src, edits) && e in edits
    ensures OutsideAll(edits, e.end)
  {
    forall other | other in edits ensures !(other.start < e.end < other.end) {
      if other != e { DistinctEditsAreApart(src, edits, e, other); }
      assert Inside(src, e);
    }
  }

  /** No span of an edit holds byte `pos`. */
  ghost predicate OutsideSpans(edits: seq<Edit>, pos: nat) {
    forall e :: e in edits ==> !(e.start <= pos < e.end)
  }

  /** Every byte outside the spans survives at the place the preceding edits shift it to. */
  lemma {:induction false} OutsideBytesSurvive(src: Bytes, edits: seq<Edit>, pos: nat)
    requires Disjoint(src, edits) && pos < |src| && OutsideSpans(edits, pos)
    ensures 0 <= pos + Shift(edits, pos) < |Substitute(src, edits, 0)|
    ensures Substitute(src, edits, 0)[pos + Shift(edits, pos)] == src[pos]
  {
    TallyAtZero(src, edits, LengthChange);
    ScanEmits(src, edits, 0, pos);
    assert Substitute(src, edits, pos)[0] == src[pos];
  }

  /** The place just behind an outside byte is where the scan stands next, one further on in the result. */
  lemma {:induction false} ShiftPassesByte(src: Bytes, edits: seq<Edit>, pos: nat)
    requires Disjoint(src, edits) && pos < |src| && OutsideSpans(edits, pos)
    ensures OutsideAll(edits, pos + 1) && Shift(edits, pos + 1) == Shift(edits, pos)
  {
    forall e | e in edits ensures !(pos < e.end <= pos + 1) && !(e.start < pos + 1 < e.end) {
      assert Inside(src, e);
    }
    TallyUnchanged(edits, pos, pos + 1, LengthChange);
  }

  /** The surviving bytes keep their order. */
  lemma {:induction false} OutsideBytesKeepOrder(src: Bytes, edits: seq<Edit>, p: nat, q: nat)
    requires Disjoint(src, edits) && p < q < |src| && OutsideSpans(edits, p) && OutsideSpans(edits, q)
    ensures p + Shift(edits, p) < q + Shift(edits, q)
  {
    ShiftPassesByte(src, edits, p);
    ScanEmits(src, edits, p + 1, q);
  }

  /** The result holds nothing else: its length is the source's, changed by what the edits change it by. */
  lemma {:induction false} LengthBalance(src: Bytes, edits: seq<Edit>)
    requires Disjoint(src, edits)
    ensures |Substitute(src, edits, 0)| == |src| + Shift(edits, |src|)
  {
    forall e | e in edits ensures !(e.start < |src| < e.end) {
      assert Inside(src, e);
    }
    TallyAtZero(src, edits, LengthChange);
    ScanEmits(src, edits, 0, |src|);
  }

  /** Every replacement stands at the place the preceding edits shift its span to. */
  lemma {:induction false} ReplacementsArePlaced(src: Bytes, edits: seq<Edit>, e: Edit)
    requires Disjoint(src, edits) && e in edits
    ensures var at := e.start + Shift(edits, e.start);
            && 0 <= at <= at + |e.text| <= |Substitute(src, edits, 0)|
            && Substitute(src, edits, 0)[at..at + |e.text|] == e.text
  {
    forall other | other in edits ensures !(other.start < e.start < other.end) {
      if other != e { DistinctEditsAreApart(src, edits, e, other); }
      assert Inside(src, e);
    }
    TallyAtZero(src, edits, LengthChange);
    ScanEmits(src, edits, 0, e.start);
    SubstituteAtStart(src, edits, e);
    PrefixOfSuffix(Substitute(src, edits, 0), e.start + Shift(edits, e.start), e.text, Substitute(src, edits, e.end));
  }

  lemma {:induction false} PrefixOfSuffix(out: Bytes, at: int, text: Bytes, rest: Bytes)
    requires 0 <= at <= |out| && out[at..] == text + rest
    ensures at + |text| <= |out| && out[at..at + |text|] == text
  {
    assert |out[at..]| == |out| - at;
    assert out[at..at + |text|] == out[at..][..|text|];
  }

  // ----- newlines -----

  /** How many newlines an edit adds. */
  ghost function NewlineChange(src: Bytes): Edit -> int {
    (e: Edit) => if e.start <= e.end <= |src| then Newlines(e.text) - Newlines(src[e.start..e.end]) else 0
  }

  ghost predicate NewlinesFrom(src: Bytes, edits: seq<Edit>, pos: nat)
    requires pos <= |src| && forall e :: e in edits ==> Inside(src, e)
  {
    Newlines(Substitute(src, edits, pos)) - Newlines(src[pos..])
    == Tally(edits, |src|, NewlineChange(src)) - Tally(edits, pos, NewlineChange(src))
  }

  lemma {:induction false} NewlinesOverSpan(src: Bytes, edits: seq<Edit>, e: Edit)
    requires Disjoint(src, edits) && e in edits && NewlinesFrom(src, edits, e.end)
    ensures NewlinesFrom(src, edits, e.start)
  {
    var i :| 0 <= i < |edits| && edits[i] == e;
    TallyPasses(src, edits, i, NewlineChange(src));
    SubstituteAtStart(src, edits, e);
    NewlinesConcat(e.text, Substitute(src, edits, e.end));
    NewlinesSplit(src, e.start, e.end);
  }

  lemma {:induction false} NewlinesOverByte(src: Bytes, edits: seq<Edit>, pos: nat)
    requires Disjoint(src, edits) && pos < |src| && OutsideAll(edits, pos) && forall e :: e in edits ==> e.start != pos
    requires NewlinesFrom(src, edits, pos + 1)
    ensures NewlinesFrom(src, edits, pos)
  {
    TallyPassesByte(src, edits, pos, NewlineChange(src));
    SubstituteCopiesOne(src, edits, pos);
    NewlinesConcat([src[pos]], Substitute(src, edits, pos + 1));
    NewlinesSplit(src, pos, pos + 1);
    assert src[pos..pos + 1] == [src[pos]];
  }

  lemma {:induction false} NewlinesScan(src: Bytes, edits: seq<Edit>, pos: nat)
    requires Disjoint(src, edits) && pos <= |src| && OutsideAll(edits, pos)
    ensures NewlinesFrom(src, edits, pos)
    decreases |src| - pos
  {
    if pos < |src| {
      if e :| e in edits && e.start == pos {
        assert Inside(src, e);
        EndsAreOutside(src, edits, e);
        NewlinesScan(src, edits, e.end);
        NewlinesOverSpan(src, edits, e);
      } else {
        TallyPassesByte(src, edits, pos, NewlineChange(src));
        NewlinesScan(src, edits, pos + 1);
        NewlinesOverByte(src, edits, pos);
      }
    }
  }

  /** The newlines an edit list adds, all edits together. */
  ghost function NewlinesAdded(src: Bytes, edits: seq<Edit>): int {
    if edits == [] then 0 else NewlineChange(src)(edits[0]) + NewlinesAdded(src, edits[1..])
  }

  lemma {:induction false} TallyAtEnd(src: Bytes, edits: seq<Edit>)
    requires forall e :: e in edits ==> Inside(src, e)
    ensures Tally(edits, |src|, NewlineChange(src)) == NewlinesAdded(src, edits)
  {
    if edits != [] {
      assert Inside(src, edits[0]);
      TallyAtEnd(src, edits[1..]);
    }
  }

  /** Rewriting changes the newline count by what the edits add together, so it keeps it exactly when they add none. */
  lemma {:induction false} NewlineBalance(src: Bytes, edits: seq<Edit>)
    requires Disjoint(src, edits)
    ensures Newlines(Substitute(src, edits, 0)) == Newlines(src) + NewlinesAdded(src, edits)
    ensures Newlines(Substitute(src, edits, 0)) == Newlines(src) <==> NewlinesAdded(src, edits) == 0
  {
    NewlinesScan(src, edits, 0);
    TallyAtZero(src, edits, NewlineChange(src));
    TallyAtEnd(src, edits);
    assert src[0..] == src;
  }

  /** In particular when each replacement has as many newlines as its span. */
  lemma {:induction false} NewlinesKept(src: Bytes, edits: seq<Edit>)
    requires forall e :: e in edits ==> Inside(src, e) && Newlines(e.text) == Newlines(src[e.start..e.end])
    ensures NewlinesAdded(src, edits) == 0
  {
    if edits != [] {
      assert edits[0] in edits;
      NewlinesKept(src, edits[1..]);
    }
  }

  // ----- the whole rewriting -----

  /** Where the syntax tree places a node, with lines counted from 1, and the text to put there. */
  datatype Site = Site(line: nat, col: nat, endLine: nat, endCol: nat, text: Bytes)

  function EditOf(lines: seq<Bytes>, s: Site): (e: Edit)
    requires 1 <= s.line <= |lines| && 1 <= s.endLine <= |lines|
  {
    Edit(|Flatten(lines[..s.line - 1])| + s.col, |Flatten(lines[..s.endLine - 1])| + s.endCol, s.text)
  }

  function EditsOf(lines: seq<Bytes>, sites: seq<Site>): (es: seq<Edit>)
    requires forall s :: s in sites ==> 1 <= s.line <= |lines| && 1 <= s.endLine <= |lines|
    ensures |es| == |sites| && forall i :: 0 <= i < |sites| ==> es[i] == EditOf(lines, sites[i])
  {
    seq(|sites|, i requires 0 <= i < |sites| => EditOf(lines, sites[i]))
  }

  /** `e` replaces what lies between the two columns of the two lines that `s` names. */
  ghost predicate Addresses(src: Bytes, s: Site, e: Edit) {
    && StartsLine(src, s.line, e.start - s.col)
    && StartsLine(src, s.endLine, e.end - s.endCol)
    && e.text == s.text
  }

  lemma {:induction false} EditAddresses(src: Bytes, s: Site)
    requires 1 <= s.line <= |SplitLines(src)| && 1 <= s.endLine <= |SplitLines(src)|
    ensures Addresses(src, s, EditOf(SplitLines(src), s))
  {
    SplitStartsLines(src, s.line - 1);
    SplitStartsLines(src, s.endLine - 1);
  }

  /** The nodes of one syntax tree name lines of the source and do not overlap. */
  method Relocate(src: Bytes, sites: seq<Site>) returns (raw: Bytes)
    requires forall s :: s in sites ==> 1 <= s.line <= |SplitLines(src)| && 1 <= s.endLine <= |SplitLines(src)|
    requires Disjoint(src, EditsOf(SplitLines(src), sites))
    ensures raw == Substitute(src, EditsOf(SplitLines(src), sites), 0)
    ensures forall i :: 0 <= i < |sites| ==> Addresses(src, sites[i], EditsOf(SplitLines(src), sites)[i])
  {
    forall i | 0 <= i < |sites| ensures Addresses(src, sites[i], EditsOf(SplitLines(src), sites)[i]) {
      EditAddresses(src, sites[i]);
    }
    var lines := SplitLines(src);
    var offsets := Offsets(lines);
    var edits := [];
    for i := 0 to |sites|
      invariant |edits| == i && forall k :: 0 <= k < i ==> edits[k] == EditOf(lines, sites[k])
    {
      var s := sites[i];
      edits := edits + [Edit(offsets[s.line - 1] + s.col, offsets[s.endLine - 1] + s.endCol, s.text)];
    }
    assert edits == EditsOf(lines, sites);
    raw := SpliceAll(src, edits);
  }
}
