/**
 The identity of a payment: the compact ASCII JSON encoding (section 7 of RFC 8259) of its
 provider and charge, hashed. A Python string is a sequence of code points, surrogates included.
 */
module FundingKey {
  import opened Options

  type Code = c: int | 0 <= c < 0x110000

  type Text = seq<Code>

  /** A 16-bit unit, as one \uXXXX escape names it. */
  type Unit = u: int | 0 <= u < 0x10000

  // ----- from code points to 16-bit units -----

  predicate HighSurrogate(c: int) {
    0xD800 <= c < 0xDC00
  }

  predicate LowSurrogate(c: int) {
    0xDC00 <= c < 0xE000
  }

  /** A code point above the basic plane is written as a surrogate pair. */
  function UnitsOf(c: Code): (us: seq<Unit>)
    ensures |us| == if c < 0x10000 then 1 else 2
  {
    if c < 0x10000 then [c]
    else [0xD800 + (c - 0x10000) / 0x400, 0xDC00 + (c - 0x10000) % 0x400]
  }

  function Units(t: Text): (us: seq<Unit>) {
    if t == [] then [] else UnitsOf(t[0]) + Units(t[1..])
  }

  // ----- from units to ASCII -----

  function HexDigit(d: int): (c: char)
    requires 0 <= d < 16
    ensures '0' <= c <= '9' || 'a' <= c <= 'f'
  {
    "0123456789abcdef"[d]
  }

  /** The two-character escapes. */
  function ShortEscape(u: Unit): (c: Option<char>)
    ensures c.Some? ==> c.value != 'u'
  {
    if u == 0x22 then Some('"')
    else if u == 0x5C then Some('\\')
    else if u == 0x08 then Some('b')
    else if u == 0x0C then Some('f')
    else if u == 0x0A then Some('n')
    else if u == 0x0D then Some('r')
    else if u == 0x09 then Some('t')
    else None
  }

  function Escape(u: Unit): (s: string)
    ensures s != [] && s[0] != '"'
  {
    if ShortEscape(u).Some? then ['\\', ShortEscape(u).value]
    else if 0x20 <= u <= 0x7E then [u as char]
    else ['\\', 'u', HexDigit(u / 0x1000), HexDigit(u / 0x100 % 16), HexDigit(u / 16 % 16), HexDigit(u % 16)]
  }

  function EscapeAll(us: seq<Unit>): (s: string) {
    if us == [] then [] else Escape(us[0]) + EscapeAll(us[1..])
  }

  function Quoted(t: Text): (s: string) {
    "\"" + EscapeAll(Units(t)) + "\""
  }

  /** json.dumps([provider, ref], ensure_ascii=True, separators=(",", ":")) */
  function EncodePair(provider: Text, ref: Text): (s: string) {
    "[" + Quoted(provider) + "," + Quoted(ref) + "]"
  }

  function Key(hash: string -> string, provider: Text, ref: Text): (key: string) {
    hash(EncodePair(provider, ref))
  }

  // ----- it is JSON: a reader of the standard's grammar reads the texts back -----

  /** The value of a hexadecimal digit, of either case. */
  ghost function HexValue(c: char): Option<int> {
    if '0' <= c <= '9' then Some(c as int - '0' as int)
    else if 'a' <= c <= 'f' then Some(c as int - 'a' as int + 10)
    else if 'A' <= c <= 'F' then Some(c as int - 'A' as int + 10)
    else None
  }

  ghost function FourHex(s: string): Option<int>
    requires |s| == 4
  {
    var a, b, c, d := HexValue(s[0]), HexValue(s[1]), HexValue(s[2]), HexValue(s[3]);
    if a.Some? && b.Some? && c.Some? && d.Some?
    then Some(0x1000 * a.value + 0x100 * b.value + 0x10 * c.value + d.value) else None
  }

  datatype Read<T> = Read(value: T, rest: string) | Malformed

  /** One character of a JSON string: unescaped, a two-character escape, or four hexadecimal digits. */
  ghost function ReadUnit(s: string): Read<int> {
    if s == [] || s[0] == '"' || s[0] as int < 0x20 then Malformed
    else if s[0] != '\\' then Read(s[0] as int, s[1..])
    else if |s| < 2 then Malformed
    else match s[1]
      case '"' => Read(0x22, s[2..])
      case '\\' => Read(0x5C, s[2..])
      case '/' => Read(0x2F, s[2..])
      case 'b' => Read(0x08, s[2..])
      case 'f' => Read(0x0C, s[2..])
      case 'n' => Read(0x0A, s[2..])
      case 'r' => Read(0x0D, s[2..])
      case 't' => Read(0x09, s[2..])
      case 'u' => if |s| >= 6 && FourHex(s[2..6]).Some? then Read(FourHex(s[2..6]).value, s[6..]) else Malformed
      case _ => Malformed
  }

  /** The rest of a JSON string, up to its closing quote. */
  ghost function ReadString(s: string): Read<seq<int>>
    decreases |s|
  {
    if s != [] && s[0] == '"' then Read([], s[1..])
    else
      var first := ReadUnit(s);
      if first.Malformed? || |first.rest| >= |s| then Malformed
      else
        var more := ReadString(first.rest);
        if more.Malformed? then Malformed else Read([first.value] + more.value, more.rest)
  }

  /** An array of two strings and nothing else, without white space. */
  ghost function ReadPair(s: string): Option<(seq<int>, seq<int>)> {
    if !("[\"" <= s) then None
    else
      var a := ReadString(s[2..]);
      if a.Malformed? || !(",\"" <= a.rest) then None
      else
        var b := ReadString(a.rest[2..]);
        if b.Malformed? || b.rest != "]" then None else Some((a.value, b.value))
  }

  lemma {:induction false} DivideTwice(u: int, a: int)
    requires u >= 0 && a > 0
    ensures a == 16 || a == 0x100 ==> u / (16 * a) == u / 16 / a
  {
  }

  /** The four hexadecimal digits of a unit are its value. */
  lemma {:induction false} HexDigitsOf(u: Unit)
    ensures u == ((u / 0x1000 * 16 + u / 0x100 % 16) * 16 + u / 16 % 16) * 16 + u % 16
  {
    DivideTwice(u, 16);
    DivideTwice(u, 0x100);
    var q := u / 16;
    assert q == q / 0x100 * 0x100 + q / 16 % 16 * 16 + q % 16;
  }

  lemma {:induction false} HexDigitReads(d: int)
    requires 0 <= d < 16
    ensures HexValue(HexDigit(d)) == Some(d)
  {
  }

  lemma {:induction false} HexReadsBack(u: Unit, digits: string)
    requires digits == [HexDigit(u / 0x1000), HexDigit(u / 0x100 % 16), HexDigit(u / 16 % 16), HexDigit(u % 16)]
    ensures FourHex(digits) == Some(u)
  {
    HexDigitReads(u / 0x1000);
    HexDigitReads(u / 0x100 % 16);
    HexDigitReads(u / 16 % 16);
    HexDigitReads(u % 16);
    HexDigitsOf(u);
  }

  lemma {:induction false} LongEscapeReadsBack(u: Unit, digits: string, rest: string)
    requires |digits| == 4 && FourHex(digits) == Some(u)
    ensures ReadUnit("\\u" + digits + rest) == Read(u, rest)
  {
    var s := "\\u" + digits + rest;
    assert s[0] == '\\' && s[1] == 'u' && s[2..6] == digits && s[6..] == rest;
  }

  lemma {:induction false} ShortEscapeReadsBack(u: Unit, c: char, rest: string)
    requires ShortEscape(u) == Some(c)
    ensures ReadUnit(['\\', c] + rest) == Read(u, rest)
  {
    var s := ['\\', c] + rest;
    assert s[0] == '\\' && s[1] == c && s[2..] == rest;
  }

  lemma {:induction false} EscapeReadsBack(u: Unit, rest: string)
    ensures ReadUnit(Escape(u) + rest) == Read(u, rest)
  {
    if ShortEscape(u).Some? {
      ShortEscapeReadsBack(u, ShortEscape(u).value, rest);
    } else if 0x20 <= u <= 0x7E {
      assert ([u as char] + rest)[1..] == rest;
    } else {
      var digits := [HexDigit(u / 0x1000), HexDigit(u / 0x100 % 16), HexDigit(u / 16 % 16), HexDigit(u % 16)];
      HexReadsBack(u, digits);
      LongEscapeReadsBack(u, digits, rest);
      assert Escape(u) == "\\u" + digits;
    }
  }

  lemma {:induction false} ReadsOneMore(s: string, u: int, more: string, us: seq<int>, rest: string)
    requires s != [] && s[0] != '"' && |more| < |s|
    requires ReadUnit(s) == Read(u, more) && ReadString(more) == Read(us, rest)
    ensures ReadString(s) == Read([u] + us, rest)
  {
  }

  lemma {:induction false} EscapeAllReadsBack(us: seq<Unit>, rest: string)
    ensures ReadString(EscapeAll(us) + "\"" + rest) == Read(us, rest)
  {
    if us == [] {
      assert EscapeAll(us) + "\"" + rest == "\"" + rest;
    } else {
      var more := EscapeAll(us[1..]) + "\"" + rest;
      assert EscapeAll(us) + "\"" + rest == Escape(us[0]) + more;
      EscapeReadsBack(us[0], more);
      EscapeAllReadsBack(us[1..], rest);
      ReadsOneMore(Escape(us[0]) + more, us[0], more, us[1..], rest);
      assert us == [us[0]] + us[1..];
    }
  }

  lemma {:induction false} PairText(a: string, b: string, s: string, tail: string)
    requires s == "[" + ("\"" + a + "\"") + "," + ("\"" + b + "\"") + "]" && tail == ",\"" + b + "\"]"
    ensures "[\"" <= s && s[2..] == a + "\"" + tail
    ensures ",\"" <= tail && tail[2..] == b + "\"" + "]"
  {
  }

  /** Reading the encoding as JSON gives the two texts, unit by unit. */
  lemma {:induction false} PairReadsBack(provider: Text, ref: Text)
    ensures ReadPair(EncodePair(provider, ref)) == Some((Units(provider), Units(ref)))
  {
    var a, b := EscapeAll(Units(provider)), EscapeAll(Units(ref));
    var tail := ",\"" + b + "\"]";
    EscapeAllReadsBack(Units(provider), tail);
    EscapeAllReadsBack(Units(ref), "]");
    PairText(a, b, EncodePair(provider, ref), tail);
  }

  /** Printable ASCII without quotes and backslashes is written as it is. */
  ghost predicate Plain(t: Text) {
    forall i :: 0 <= i < |t| ==> 0x20 <= t[i] <= 0x7E && t[i] != 0x22 && t[i] != 0x5C
  }

  ghost function AsString(t: Text): string
    requires Plain(t)
  {
    seq(|t|, i requires 0 <= i < |t| => t[i] as char)
  }

  lemma {:induction false} PlainTextIsKept(t: Text)
    requires Plain(t)
    ensures EscapeAll(Units(t)) == AsString(t)
  {
    if t != [] {
      PlainTextIsKept(t[1..]);
      assert UnitsOf(t[0]) == [t[0]];
      assert Units(t) == [t[0]] + Units(t[1..]) && Units(t)[1..] == Units(t[1..]);
      assert AsString(t) == [t[0] as char] + AsString(t[1..]);
    }
  }

  /** The encoding of an ordinary provider and charge, in full. */
  lemma {:induction false} PlainEncoding(provider: Text, ref: Text)
    requires Plain(provider) && Plain(ref)
    ensures EncodePair(provider, ref) == "[\"" + AsString(provider) + "\",\"" + AsString(ref) + "\"]"
  {
    PlainTextIsKept(provider);
    PlainTextIsKept(ref);
  }

  // ----- the encoding determines the texts -----

  /** The encoding determines the units of both texts. */
  lemma {:induction false} PairDeterminesUnits(p: Text, r: Text, p': Text, r': Text)
    requires EncodePair(p, r) == EncodePair(p', r')
    ensures Units(p) == Units(p') && Units(r) == Units(r')
  {
    PairReadsBack(p, r);
    PairReadsBack(p', r');
  }

  // ----- exactly which texts the units determine -----

  /** A lone high surrogate directly followed by a lone low one: it reads like one code point. */
  predicate SplitPair(t: Text) {
    exists i :: 0 <= i < |t| - 1 && HighSurrogate(t[i]) && LowSurrogate(t[i + 1])
  }

  /** A code point above the basic plane is written as its surrogate pair. */
  lemma {:induction false} UnitsOfSupplementary(c: Code)
    requires c >= 0x10000
    ensures HighSurrogate(UnitsOf(c)[0]) && LowSurrogate(UnitsOf(c)[1])
    ensures var high: int, low: int := UnitsOf(c)[0], UnitsOf(c)[1];
            c == 0x10000 + (high - 0xD800) * 0x400 + (low - 0xDC00)
  {
  }

  /** If one text starts with a supplementary code point where the other has two units, the other is split. */
  lemma {:induction false} SupplementaryAgainstUnits(t: Text, v: Text)
    requires t != [] && v != [] && t[0] >= 0x10000 && v[0] < 0x10000 && Units(t) == Units(v)
    ensures SplitPair(v)
  {
    UnitsOfSupplementary(t[0]);
    assert Units(t)[0] == UnitsOf(t[0])[0] && Units(t)[1] == UnitsOf(t[0])[1];
    assert Units(v)[0] == v[0];
    assert |Units(v)| == 1 + |Units(v[1..])|;
    assert |v| > 1;
    assert Units(v)[1] == Units(v[1..])[0] == UnitsOf(v[1])[0];
    if v[1] >= 0x10000 { UnitsOfSupplementary(v[1]); }
    assert HighSurrogate(v[0]) && LowSurrogate(v[0 + 1]);
  }

  /** Texts without a split pair are told apart by their units. */
  lemma {:induction false} UnitsInjective(t: Text, v: Text)
    requires Units(t) == Units(v) && !SplitPair(t) && !SplitPair(v)
    ensures t == v
    decreases |t|
  {
    if t == [] || v == [] {
      assert t == [] ==> Units(t) == [];
      assert v == [] ==> Units(v) == [];
    } else {
      if t[0] >= 0x10000 && v[0] < 0x10000 { SupplementaryAgainstUnits(t, v); }
      if v[0] >= 0x10000 && t[0] < 0x10000 { SupplementaryAgainstUnits(v, t); }
      FirstUnits(t, v);
      TailHasNoSplitPair(t);
      TailHasNoSplitPair(v);
      UnitsInjective(t[1..], v[1..]);
      assert t == [t[0]] + t[1..] && v == [v[0]] + v[1..];
    }
  }

  lemma {:induction false} TailHasNoSplitPair(t: Text)
    requires t != [] && !SplitPair(t)
    ensures !SplitPair(t[1..])
  {
    forall i | 0 <= i < |t[1..]| - 1 ensures !(HighSurrogate(t[1..][i]) && LowSurrogate(t[1..][i + 1])) {
      assert t[1..][i] == t[i + 1] && t[1..][i + 1] == t[i + 1 + 1];
    }
  }

  lemma {:induction false} FirstUnits(t: Text, v: Text)
    requires t != [] && v != [] && Units(t) == Units(v) && (t[0] < 0x10000 <==> v[0] < 0x10000)
    ensures t[0] == v[0] && Units(t[1..]) == Units(v[1..])
  {
    var n := |UnitsOf(t[0])|;
    assert Units(t)[..n] == UnitsOf(t[0]) && Units(v)[..n] == UnitsOf(v[0]);
    assert Units(t)[n..] == Units(t[1..]) && Units(v)[n..] == Units(v[1..]);
    if n == 2 {
      UnitsOfSupplementary(t[0]);
      UnitsOfSupplementary(v[0]);
    } else {
      assert UnitsOf(t[0])[0] == t[0] && UnitsOf(v[0])[0] == v[0];
    }
  }

  lemma {:induction false} UnitsConcat(a: Text, b: Text)
    ensures Units(a + b) == Units(a) + Units(b)
  {
    if a == [] {
      assert a + b == b;
    } else {
      UnitsConcat(a[1..], b);
      UnitsCons(a, b);
      Regroup(UnitsOf(a[0]), Units(a[1..]), Units(b));
    }
  }

  lemma {:induction false} UnitsCons(a: Text, b: Text)
    requires a != []
    ensures Units(a + b) == UnitsOf(a[0]) + Units(a[1..] + b)
  {
    assert (a + b)[1..] == a[1..] + b;
  }

  lemma {:induction false} Regroup(x: seq<Unit>, y: seq<Unit>, z: seq<Unit>)
    ensures x + (y + z) == x + y + z
  {
  }

  /** A text with a split pair shares its encoding with the text that has the one code point there. */
  lemma {:induction false} SplitPairHasATwin(t: Text) returns (twin: Text)
    requires SplitPair(t)
    ensures twin != t && Units(twin) == Units(t)
  {
    var i :| 0 <= i < |t| - 1 && HighSurrogate(t[i]) && LowSurrogate(t[i + 1]);
    var c: Code := 0x10000 + (t[i] - 0xD800) * 0x400 + (t[i + 1] - 0xDC00);
    twin := t[..i] + ([c] + t[i + 2..]);
    assert UnitsOf(c) == [t[i], t[i + 1]];
    assert t == t[..i] + ([t[i], t[i + 1]] + t[i + 2..]);
    UnitsConcat(t[..i], [c] + t[i + 2..]);
    UnitsConcat(t[..i], [t[i], t[i + 1]] + t[i + 2..]);
    UnitsConcat([c], t[i + 2..]);
    UnitsConcat([t[i], t[i + 1]], t[i + 2..]);
    PairUnits(t[i], t[i + 1]);
    assert [c][1..] == [] && Units([c]) == UnitsOf(c) + Units([c][1..]);
    assert |twin| == |t| - 1;
  }

  lemma {:induction false} PairUnits(a: Code, b: Code)
    requires a < 0x10000 && b < 0x10000
    ensures Units([a, b]) == [a, b]
  {
    assert [a, b][1..] == [b] && [b][1..] == [];
    assert Units([b]) == UnitsOf(b) + Units([b][1..]);
    assert Units([a, b]) == UnitsOf(a) + Units([a, b][1..]);
  }

  /** Two payments whose texts hold no split pair have the same encoding only if they are the same payment. */
  lemma {:induction false} EncodingInjective(p: Text, r: Text, p': Text, r': Text)
    requires !SplitPair(p) && !SplitPair(r) && !SplitPair(p') && !SplitPair(r')
    ensures EncodePair(p, r) == EncodePair(p', r') <==> p == p' && r == r'
  {
    if EncodePair(p, r) == EncodePair(p', r') {
      PairDeterminesUnits(p, r, p', r');
      UnitsInjective(p, p');
      UnitsInjective(r, r');
    }
  }

  /** A code point that is written as a surrogate pair. */
  predicate Supplementary(t: Text) {
    exists i :: 0 <= i < |t| && t[i] >= 0x10000
  }

  lemma {:induction false} BasicTextIsItsUnits(t: Text)
    requires !Supplementary(t)
    ensures Units(t) == t
  {
    if t != [] {
      assert !(t[0] >= 0x10000);
      forall i | 0 <= i < |t[1..]| ensures t[1..][i] < 0x10000 { assert t[1..][i] == t[i + 1]; }
      BasicTextIsItsUnits(t[1..]);
      assert t == [t[0]] + t[1..];
    }
  }

  /** Writing the code point at `i` as two surrogates gives another text with the same units. */
  lemma {:induction false} SupplementaryHasATwin(t: Text) returns (twin: Text)
    requires Supplementary(t)
    ensures twin != t && Units(twin) == Units(t) && SplitPair(twin)
  {
    var i :| 0 <= i < |t| && t[i] >= 0x10000;
    var high: Code, low: Code := UnitsOf(t[i])[0], UnitsOf(t[i])[1];
    UnitsOfSupplementary(t[i]);
    twin := t[..i] + ([high, low] + t[i + 1..]);
    assert t == t[..i] + ([t[i]] + t[i + 1..]);
    UnitsConcat(t[..i], [high, low] + t[i + 1..]);
    UnitsConcat(t[..i], [t[i]] + t[i + 1..]);
    UnitsConcat([high, low], t[i + 1..]);
    UnitsConcat([t[i]], t[i + 1..]);
    PairUnits(high, low);
    assert [t[i]][1..] == [] && Units([t[i]]) == UnitsOf(t[i]) + Units([t[i]][1..]);
    assert |twin| == |t| + 1;
    assert twin[i] == high && twin[i + 1] == low;
  }

  lemma {:induction false} BasicTextIsAlone(t: Text, other: Text)
    requires !Supplementary(t) && !SplitPair(t) && Units(other) == Units(t)
    ensures other == t
  {
    BasicTextIsItsUnits(t);
    if Supplementary(other) {
      UnitsWithPair(other);
    } else {
      BasicTextIsItsUnits(other);
    }
  }

  /** A supplementary code point shows in the units as a high surrogate followed by a low one. */
  lemma {:induction false} UnitsWithPair(t: Text)
    requires Supplementary(t)
    ensures exists k :: 0 <= k < |Units(t)| - 1 && HighSurrogate(Units(t)[k]) && LowSurrogate(Units(t)[k + 1])
  {
    var i :| 0 <= i < |t| && t[i] >= 0x10000;
    UnitsOfSupplementary(t[i]);
    assert t == t[..i] + t[i..];
    UnitsConcat(t[..i], t[i..]);
    var k := |Units(t[..i])|;
    assert Units(t[i..])[0] == UnitsOf(t[i])[0] && Units(t[i..])[1] == UnitsOf(t[i])[1];
    assert Units(t)[k] == UnitsOf(t[i])[0] && Units(t)[k + 1] == UnitsOf(t[i])[1];
  }

  /**
   A charge reference shares its encoding with another one exactly when it holds a surrogate pair, in
   either spelling.
   */
  lemma {:induction false} EncodingSharedIff(p: Text, r: Text)
    ensures (exists other :: other != r && EncodePair(p, other) == EncodePair(p, r)) <==>
             SplitPair(r) || Supplementary(r)
  {
    if SplitPair(r) {
      var twin := SplitPairHasATwin(r);
      assert EncodePair(p, twin) == EncodePair(p, r);
    } else if Supplementary(r) {
      var twin := SupplementaryHasATwin(r);
      assert EncodePair(p, twin) == EncodePair(p, r);
    } else {
      forall other | EncodePair(p, other) == EncodePair(p, r) ensures other == r {
        PairDeterminesUnits(p, other, p, r);
        BasicTextIsAlone(r, other);
      }
    }
  }

  // ----- finding the payment that funded a job -----

  /** A completed Fix Pack payment linked to the job; a missing charge reference never funds anything. */
  datatype Payment = Payment(id: nat, provider: Text, externalRef: Option<Text>)

  /** The hash does not collide. */
  ghost predicate CollisionFree(hash: string -> string) {
    forall a, b :: hash(a) == hash(b) ==> a == b
  }

  predicate Funds(hash: string -> string, p: Payment, jobKey: Option<string>) {
    && jobKey.Some? && jobKey.value != ""
    && p.externalRef.Some? && p.externalRef.value != []
    && Key(hash, p.provider, p.externalRef.value) == jobKey.value
  }

  /** The funding payment, or the sole payment of a job without a key. */
  method CompletedForJob(hash: string -> string, rows: seq<Payment>, jobKey: Option<string>)
    returns (r: Option<Payment>)
    ensures r.Some? ==> r.value in rows
    ensures (exists p :: p in rows && Funds(hash, p, jobKey)) ==> r.Some? && Funds(hash, r.value, jobKey)
    // The order of the rows does not matter: whichever of them funded the job is the answer.
    ensures CollisionFree(hash) && LinkedPayments(rows) ==>
              forall p :: p in rows && Funds(hash, p, jobKey) ==> r == Some(p)
    ensures (forall p :: p in rows ==> !Funds(hash, p, jobKey)) ==>
              (r.Some? <==> |rows| == 1 && (jobKey == None || jobKey == Some("")))
  {
    for i := 0 to |rows|
      invariant forall j :: 0 <= j < i ==> !Funds(hash, rows[j], jobKey)
    {
      var row := rows[i];
      if jobKey.Some? && jobKey.value != "" && row.externalRef.Some? && row.externalRef.value != []
         && hash(EncodePair(row.provider, row.externalRef.value)) == jobKey.value {
        assert Funds(hash, row, jobKey);
        OnlyFunder(hash, rows, jobKey, row);
        return Some(row);
      }
    }
    if |rows| == 1 && (jobKey == None || jobKey == Some("")) {
      return Some(rows[0]);
    }
    r := None;
  }

  /** Texts a database column can hold, and no two rows for one charge. */
  ghost predicate LinkedPayments(rows: seq<Payment>) {
    && (forall p :: p in rows ==> !SplitPair(p.provider) && (p.externalRef.Some? ==> !SplitPair(p.externalRef.value)))
    && (forall p, q | p in rows && q in rows && p.externalRef.Some? ::
          p.provider == q.provider && p.externalRef == q.externalRef ==> p == q)
  }

  /** At most one of a job's payments funded it, whatever order the rows come in. */
  lemma {:induction false} FundingPaymentIsUnique(hash: string -> string, rows: seq<Payment>, jobKey: Option<string>,
                                                  p: Payment, q: Payment)
    requires CollisionFree(hash) && LinkedPayments(rows)
    requires p in rows && q in rows && Funds(hash, p, jobKey) && Funds(hash, q, jobKey)
    ensures p == q
  {
    EncodingInjective(p.provider, p.externalRef.value, q.provider, q.externalRef.value);
  }

  lemma {:induction false} OnlyFunder(hash: string -> string, rows: seq<Payment>, jobKey: Option<string>, p: Payment)
    requires p in rows && Funds(hash, p, jobKey)
    ensures CollisionFree(hash) && LinkedPayments(rows) ==>
              forall q :: q in rows && Funds(hash, q, jobKey) ==> q == p
  {
    forall q | CollisionFree(hash) && LinkedPayments(rows) && q in rows && Funds(hash, q, jobKey) ensures q == p {
      FundingPaymentIsUnique(hash, rows, jobKey, p, q);
    }
  }

  /** An additional payer of a job is never taken for the payment that funded it. */
  lemma {:induction false} AdditionalPayerDoesNotFund(hash: string -> string, rows: seq<Payment>, funder: Payment,
                                                      extra: Payment)
    requires CollisionFree(hash) && LinkedPayments(rows) && funder in rows && extra in rows && extra != funder
    requires funder.externalRef.Some?
    ensures !Funds(hash, extra, Some(Key(hash, funder.provider, funder.externalRef.value)))
  {
    if Funds(hash, extra, Some(Key(hash, funder.provider, funder.externalRef.value))) {
      EncodingInjective(funder.provider, funder.externalRef.value, extra.provider, extra.externalRef.value);
    }
  }
}
