/**
 * The query grammar of a hive: key normalisation (`marshalNodeKey`), PHP's
 * `explode`/`join` on the divider, and the parsed query record that
 * `HiveQuery` builds from a normalised string.
 */
module HiveQuery {
  import opened Wrappers

  /** The divider between hierarchy levels (`getQueryDivider`). */
  const Divider: char := '.'

  /** The root reference identifier (`getRootIdentifier`). */
  const RootDescriptor: char := '~'

  /** The characters `marshalNodeKey` trims: `trim($key, '. ')`. */
  const KeyTrimChars: set<char> := {Divider, ' '}

  /** The characters PHP's `trim` strips when given no character list. */
  const Whitespace: set<char> := {' ', '\t', '\n', '\r', '\0', '\U{000B}'}

  // ---------------------------------------------------------------------------
  // Strings
  // ---------------------------------------------------------------------------

  predicate IsUpper(c: char) {
    'A' <= c <= 'Z'
  }

  /** `strtolower` on one character: ASCII letters only. */
  function LowerChar(c: char): char {
    if IsUpper(c) then (c as int + 32) as char else c
  }

  predicate IsLower(s: string) {
    forall i :: 0 <= i < |s| ==> !IsUpper(s[i])
  }

  /** `strtolower`. */
  function Lower(s: string): (r: string)
    ensures |r| == |s|
    ensures forall i :: 0 <= i < |s| ==> r[i] == LowerChar(s[i])
  {
    seq(|s|, i requires 0 <= i < |s| => LowerChar(s[i]))
  }

  /** Drops the longest prefix made of `chars`. */
  function TrimStart(s: string, chars: set<char>): (r: string)
    ensures |r| <= |s| && r == s[|s| - |r|..]
    ensures r == [] || r[0] !in chars
    ensures forall i :: 0 <= i < |s| - |r| ==> s[i] in chars
  {
    if |s| > 0 && s[0] in chars then TrimStart(s[1..], chars) else s
  }

  /** Drops the longest suffix made of `chars`. */
  function TrimEnd(s: string, chars: set<char>): (r: string)
    ensures |r| <= |s| && r == s[..|r|]
    ensures r == [] || r[|r| - 1] !in chars
    ensures forall i :: |r| <= i < |s| ==> s[i] in chars
  {
    if |s| > 0 && s[|s| - 1] in chars then TrimEnd(s[..|s| - 1], chars) else s
  }

  /** PHP's `trim($s, $chars)`. */
  function Trim(s: string, chars: set<char>): (r: string)
    ensures |r| <= |s|
    ensures r == [] || (r[0] !in chars && r[|r| - 1] !in chars)
    ensures s == [] || (s[0] !in chars && s[|s| - 1] !in chars) ==> r == s
  {
    TrimEnd(TrimStart(s, chars), chars)
  }

  /** Trimming keeps a run of the original characters and drops only trimmed ones. */
  lemma TrimInside(s: string, chars: set<char>)
    ensures forall i :: 0 <= i < |Trim(s, chars)| ==> Trim(s, chars)[i] in s
    ensures (forall i :: 0 <= i < |s| ==> s[i] in chars) ==> Trim(s, chars) == []
  {
    var front := TrimStart(s, chars);
    var r := TrimEnd(front, chars);
    assert Trim(s, chars) == r;
    assert forall i :: 0 <= i < |r| ==> r[i] == s[|s| - |front| + i];
  }

  /** PHP's `empty()` on a string: true for "" and for "0". */
  predicate PhpEmpty(s: string) {
    s == "" || s == "0"
  }

  /**
   * `marshalNodeKey`: lower-cases the key, then trims dividers and spaces at
   * both ends. A leading root descriptor is not a trimmed character, so it survives.
   */
  function NormalizeKey(key: string): (r: string)
    ensures |r| <= |key|
    ensures r == "" || (r[0] !in KeyTrimChars && r[|r| - 1] !in KeyTrimChars)
    ensures IsLower(r)
  {
    var lowered := Lower(key);
    LowerIsLower(key);
    TrimKeepsLower(lowered, KeyTrimChars);
    var r := Trim(lowered, KeyTrimChars);
    assert |r| <= |key|;
    assert IsLower(r);
    r
  }

  lemma LowerIsLower(s: string)
    ensures IsLower(Lower(s))
  {
    forall i | 0 <= i < |s| ensures !IsUpper(Lower(s)[i]) {
      assert Lower(s)[i] == LowerChar(s[i]);
    }
  }

  lemma TrimKeepsLower(s: string, chars: set<char>)
    requires IsLower(s)
    ensures IsLower(Trim(s, chars))
  {
    var front := TrimStart(s, chars);
    var r := TrimEnd(front, chars);
    assert Trim(s, chars) == r;
    assert forall i :: 0 <= i < |r| ==> r[i] == s[|s| - |front| + i];
  }

  /** Normalising twice is normalising once, so a redelegated query is read the same way. */
  lemma NormalizeKeyIdempotent(key: string)
    ensures NormalizeKey(NormalizeKey(key)) == NormalizeKey(key)
  {
    var n := NormalizeKey(key);
    LowerOfLower(n);
  }

  lemma FixedIsLower(s: string)
    requires Lower(s) == s
    ensures IsLower(s)
  {
    forall i | 0 <= i < |s| ensures !IsUpper(s[i]) {
      assert LowerChar(s[i]) == s[i];
    }
  }

  lemma LowerOfLower(s: string)
    requires IsLower(s)
    ensures Lower(s) == s
  {
  }

  // ---------------------------------------------------------------------------
  // explode / join
  // ---------------------------------------------------------------------------

  /** Number of occurrences of `c` in `s`. */
  function Count(s: string, c: char): nat {
    if s == [] then 0 else (if s[0] == c then 1 else 0) + Count(s[1..], c)
  }

  /** PHP's `explode($d, $s)`: never empty, "" gives [""]. */
  function Explode(s: string, d: char): (r: seq<string>)
    ensures |r| >= 1
  {
    if s == [] then [[]]
    else
      var rest := Explode(s[1..], d);
      if s[0] == d then [[]] + rest else [[s[0]] + rest[0]] + rest[1..]
  }

  /** PHP's `join($d, $tokens)`. */
  function Implode(ts: seq<string>, d: char): string {
    if |ts| == 0 then []
    else if |ts| == 1 then ts[0]
    else ts[0] + [d] + Implode(ts[1..], d)
  }

  /** `join` undoes `explode`. */
  lemma {:induction false} ImplodeExplode(s: string, d: char)
    ensures Implode(Explode(s, d), d) == s
  {
    if s != [] {
      var rest := Explode(s[1..], d);
      ImplodeExplode(s[1..], d);
      if s[0] == d {
        assert Explode(s, d) == [[]] + rest;
        assert ([[]] + rest)[1..] == rest;
      } else {
        var r := [[s[0]] + rest[0]] + rest[1..];
        assert Explode(s, d) == r;
        if |rest| > 1 {
          assert r[1..] == rest[1..];
          assert Implode(rest, d) == rest[0] + [d] + Implode(rest[1..], d);
        }
      }
    }
  }

  /** No token of `explode` contains the divider. */
  lemma {:induction false} ExplodeTokens(s: string, d: char)
    ensures forall i :: 0 <= i < |Explode(s, d)| ==> d !in Explode(s, d)[i]
  {
    if s != [] {
      ExplodeTokens(s[1..], d);
      var rest := Explode(s[1..], d);
      if s[0] != d {
        assert d !in [s[0]] + rest[0];
      }
    }
  }

  /** `explode` yields one token more than there are dividers. */
  lemma {:induction false} ExplodeCount(s: string, d: char)
    ensures |Explode(s, d)| == Count(s, d) + 1
  {
    if s != [] {
      ExplodeCount(s[1..], d);
    }
  }

  lemma {:induction false} ExplodeNoDivider(t: string, rest: string, d: char)
    requires d !in t
    ensures Explode(t + rest, d) == [t + Explode(rest, d)[0]] + Explode(rest, d)[1..]
  {
    if t != [] {
      assert (t + rest)[1..] == t[1..] + rest;
      ExplodeNoDivider(t[1..], rest, d);
      assert [t[0]] + (t[1..] + Explode(rest, d)[0]) == t + Explode(rest, d)[0];
    } else {
      assert t + rest == rest;
      var e := Explode(rest, d);
      assert t + e[0] == e[0];
      assert e == [e[0]] + e[1..];
    }
  }

  /** `explode` undoes `join` when no token contains the divider. */
  lemma {:induction false} ExplodeImplode(ts: seq<string>, d: char)
    requires |ts| >= 1
    requires forall i :: 0 <= i < |ts| ==> d !in ts[i]
    ensures Explode(Implode(ts, d), d) == ts
  {
    if |ts| == 1 {
      ExplodeNoDivider(ts[0], [], d);
      assert ts[0] + [] == ts[0];
    } else {
      var tail := Implode(ts[1..], d);
      ExplodeImplode(ts[1..], d);
      assert Implode(ts, d) == ts[0] + ([d] + tail);
      ExplodeNoDivider(ts[0], [d] + tail, d);
      assert ([d] + tail)[1..] == tail;
      assert Explode([d] + tail, d) == [[]] + ts[1..];
      assert ts[0] + [] == ts[0];
    }
  }

  lemma {:induction false} ImplodeSnoc(ts: seq<string>, t: string, d: char)
    requires |ts| >= 1
    ensures Implode(ts + [t], d) == Implode(ts, d) + [d] + t
  {
    if |ts| > 1 {
      assert (ts + [t])[1..] == ts[1..] + [t];
      ImplodeSnoc(ts[1..], t, d);
    }
  }

  // ---------------------------------------------------------------------------
  // HiveQuery
  // ---------------------------------------------------------------------------

  /** The fields of a `HiveQuery` object after its constructor has run. */
  datatype Query = Query(
    fullQuery: string,
    rootlessQuery: string,
    query: Option<string>,
    firstToken: string,
    lastToken: string,
    segmentedQuery: Option<string>,
    tokenCount: nat,
    callsRoot: bool)
  {
    /** `isEmpty`: PHP's `empty()` of the full query. */
    predicate IsEmpty()
      ensures |fullQuery| == 0 ==> IsEmpty()
      ensures IsEmpty() ==> |fullQuery| <= 1
    {
      PhpEmpty(fullQuery)
    }
  }

  /**
   * `new HiveQuery($normalizedQuery, '.', '~')`: the constructor keeps the
   * input as the full query and `parse` strips one leading root descriptor,
   * explodes the rest on the divider and picks the first token, the last
   * token, the middle segment and the remainder after the first token.
   */
  function NewQuery(normalizedQuery: string): (q: Query)
    ensures q.fullQuery == normalizedQuery
    ensures q.callsRoot <==> |normalizedQuery| > 0 && normalizedQuery[0] == RootDescriptor
    ensures q.rootlessQuery == if q.callsRoot then normalizedQuery[1..] else normalizedQuery
    ensures q.tokenCount == Count(q.rootlessQuery, Divider) + 1
    ensures Divider !in q.firstToken && Divider !in q.lastToken
    ensures q.tokenCount == 1 ==>
      q.firstToken == q.lastToken == q.rootlessQuery && q.query.None? && q.segmentedQuery.None?
    ensures q.tokenCount == 2 ==>
      && q.firstToken + [Divider] + q.lastToken == q.rootlessQuery
      && q.query == Some(q.lastToken)
      && q.segmentedQuery.None?
    ensures q.tokenCount > 2 ==>
      && q.segmentedQuery.Some?
      && q.firstToken + [Divider] + q.segmentedQuery.value + [Divider] + q.lastToken == q.rootlessQuery
      && q.query == Some(q.segmentedQuery.value + [Divider] + q.lastToken)
  {
    var callsRoot := |normalizedQuery| > 0 && normalizedQuery[0] == RootDescriptor;
    var rootless := if callsRoot then normalizedQuery[1..] else normalizedQuery;
    var tokens := Explode(rootless, Divider);
    ExplodeCount(rootless, Divider);
    ExplodeTokens(rootless, Divider);
    ImplodeExplode(rootless, Divider);
    var n := |tokens|;
    if n == 1 then
      Query(normalizedQuery, rootless, None, rootless, rootless, None, 1, callsRoot)
    else if n == 2 then
      assert tokens[1..] == [tokens[1]];
      Query(normalizedQuery, rootless, Some(tokens[1]), tokens[0], tokens[1], None, 2, callsRoot)
    else
      var segment := Implode(tokens[1..n - 1], Divider);
      ImplodeSplit(tokens, Divider);
      Query(normalizedQuery, rootless, Some(segment + [Divider] + tokens[n - 1]),
            tokens[0], tokens[n - 1], Some(segment), n, callsRoot)
  }

  /** A join of three or more tokens is the first, the joined middle and the last. */
  lemma ImplodeSplit(ts: seq<string>, d: char)
    requires |ts| > 2
    ensures Implode(ts, d) == ts[0] + [d] + Implode(ts[1..|ts| - 1], d) + [d] + ts[|ts| - 1]
  {
    var n := |ts|;
    var middle := ts[1..n - 1];
    ImplodeSnoc(middle, ts[n - 1], d);
    assert ts[1..] == middle + [ts[n - 1]];
  }

  /** The query built from a raw key, as `marshalNodeQuery` builds it. */
  function ParseKey(key: string): Query {
    NewQuery(NormalizeKey(key))
  }

  /**
   * The node path in front of the last token, as `has`, `set` and `declare`
   * rebuild it: the first token alone for two tokens, the first token and the
   * middle segment otherwise.
   */
  function NodePath(q: Query): (r: string)
    requires q.tokenCount > 2 ==> q.segmentedQuery.Some?
    ensures q.tokenCount <= 2 ==> r == q.firstToken
  {
    if q.tokenCount > 2 then q.firstToken + [Divider] + q.segmentedQuery.value else q.firstToken
  }

  /** A query as the `HiveQuery` constructor leaves it: parsed from its own full query. */
  predicate Parsed(q: Query) {
    q == NewQuery(q.fullQuery)
  }

  /** The query `marshalNodeQuery` builds is parsed, and its full query is no longer than the key. */
  lemma ParseKeyShrinks(key: string)
    ensures Parsed(ParseKey(key)) && |ParseKey(key).fullQuery| <= |key|
  {
  }

  /** `marshalNodeQuery` of the query text it built builds the same query again. */
  lemma ParseKeyReparses(key: string)
    ensures ParseKey(ParseKey(key).fullQuery) == ParseKey(key)
  {
    NormalizeKeyIdempotent(key);
  }

  /**
   * Every string a node operation hands on to a recursive call is shorter
   * than the full query: the rootless query after a root descriptor, the
   * remainder after the first token, the node path and the last token.
   */
  lemma QueryShrinks(q: Query)
    requires Parsed(q)
    ensures |q.rootlessQuery| <= |q.fullQuery|
    ensures q.callsRoot ==> |q.rootlessQuery| < |q.fullQuery|
    ensures q.tokenCount > 2 ==> q.segmentedQuery.Some?
    ensures q.tokenCount > 1 ==>
      && q.query.Some? && |q.query.value| < |q.rootlessQuery|
      && |q.lastToken| < |q.rootlessQuery|
      && |NodePath(q)| < |q.rootlessQuery|
  {
  }

  /** Putting a root descriptor in front of a normalised, non-empty key keeps it normalised. */
  lemma RootedNormal(p: string)
    requires |p| > 0 && IsLower(p) && p[|p| - 1] !in KeyTrimChars
    ensures NormalizeKey([RootDescriptor] + p) == [RootDescriptor] + p
  {
    var e := [RootDescriptor] + p;
    assert IsLower([RootDescriptor]);
    LowerConcat([RootDescriptor], p);
    LowerOfLower(e);
    assert e[0] == RootDescriptor && RootDescriptor !in KeyTrimChars;
    assert e[|e| - 1] == p[|p| - 1];
    assert Trim(e, KeyTrimChars) == e;
    assert NormalizeKey(e) == Trim(Lower(e), KeyTrimChars);
  }

  /** `~p` for a normalised, non-empty key `p` calls the root with exactly `p`. */
  lemma RootedQuery(p: string)
    requires |p| > 0 && IsLower(p) && p[|p| - 1] !in KeyTrimChars
    ensures var q := ParseKey([RootDescriptor] + p);
      !q.IsEmpty() && q.callsRoot && q.rootlessQuery == p
  {
    var e := [RootDescriptor] + p;
    RootedParse(p);
    RootedNewQuery(e, p);
  }

  lemma RootedParse(p: string)
    requires |p| > 0 && IsLower(p) && p[|p| - 1] !in KeyTrimChars
    ensures ParseKey([RootDescriptor] + p) == NewQuery([RootDescriptor] + p)
  {
    RootedNormal(p);
  }

  /** A query that starts with the root descriptor and has more after it calls the root with the rest. */
  lemma RootedNewQuery(e: string, p: string)
    requires |p| > 0 && e == [RootDescriptor] + p
    ensures !NewQuery(e).IsEmpty() && NewQuery(e).callsRoot && NewQuery(e).rootlessQuery == p
  {
  }

  /** A key made only of dividers and spaces normalises to "", which is an empty query. */
  lemma BlankKeyIsEmpty(key: string)
    requires forall i :: 0 <= i < |key| ==> key[i] in KeyTrimChars
    ensures ParseKey(key).IsEmpty()
  {
    assert forall i :: 0 <= i < |key| ==> Lower(key)[i] in KeyTrimChars;
    TrimInside(Lower(key), KeyTrimChars);
  }

  /** Of the one-character queries, "0" is the only empty one. */
  lemma OneCharacterEmpty(q: Query)
    requires |q.fullQuery| == 1
    ensures q.IsEmpty() <==> q.fullQuery[0] == '0'
  {
    assert q.fullQuery == [q.fullQuery[0]];
  }

  /** "0" is a non-blank key that is still an empty query. */
  lemma ZeroKeyIsEmpty()
    ensures ParseKey("0").IsEmpty() && ParseKey(" 0. ").IsEmpty()
  {
    ZeroNormal();
    PaddedZeroNormal();
  }

  lemma ZeroNormal()
    ensures NormalizeKey("0") == "0"
  {
    assert Lower("0") == "0";
    assert '0' !in KeyTrimChars;
  }

  lemma PaddedZeroNormal()
    ensures NormalizeKey(" 0. ") == "0"
  {
    assert Lower(" 0. ") == " 0. ";
    PaddedZeroTrims();
  }

  lemma PaddedZeroTrims()
    ensures Trim(" 0. ", KeyTrimChars) == "0"
  {
    assert '0' !in KeyTrimChars && ' ' in KeyTrimChars && '.' in KeyTrimChars;
    assert " 0. "[1..] == "0. ";
    assert TrimStart("0. ", KeyTrimChars) == "0. ";
    assert TrimStart(" 0. ", KeyTrimChars) == "0. ";
    assert "0. "[..2] == "0." && "0."[..1] == "0";
    assert TrimEnd("0", KeyTrimChars) == "0";
    assert TrimEnd("0.", KeyTrimChars) == "0";
    assert TrimEnd("0. ", KeyTrimChars) == "0";
  }

  /**
   * A bare root descriptor asks for the root with nothing left to resolve:
   * the rootless query re-normalises to the empty query.
   */
  lemma RootOnlyKey()
    ensures ParseKey("~").callsRoot && ParseKey("~").rootlessQuery == ""
    ensures !ParseKey("~").IsEmpty() && ParseKey("").IsEmpty()
  {
    assert Lower("~") == "~";
    assert "~"[0] == RootDescriptor && RootDescriptor !in KeyTrimChars;
    assert NormalizeKey("~") == "~";
    assert "~"[1..] == "";
    assert ParseKey("~") == NewQuery("~");
  }

  /**
   * Normalisation trims the ends of the whole key only: in "a .b" the space
   * in front of the divider survives, so the first token is "a ".
   */
  lemma PaddedKeyQuery()
    ensures var q := ParseKey("a .b");
      && !q.IsEmpty() && !q.callsRoot && q.tokenCount == 2
      && q.firstToken == "a " && q.lastToken == "b" && q.query == Some("b") && NodePath(q) == "a "
  {
    PaddedKeyNormal();
    var k := "a .b";
    var q := NewQuery(k);
    assert q.firstToken + [Divider] + q.lastToken == k;
    assert k[2] == Divider;
    assert q.firstToken == k[..2] == "a ";
    assert q.lastToken == k[3..] == "b";
  }

  lemma PaddedKeyNormal()
    ensures NormalizeKey("a .b") == "a .b" && Count("a .b", Divider) == 1
  {
    var k := "a .b";
    assert Lower(k) == k;
    assert 'a' !in KeyTrimChars && 'b' !in KeyTrimChars;
    assert k[1..] == " .b" && " .b"[1..] == ".b" && ".b"[1..] == "b" && "b"[1..] == "";
  }

  /** The token "a " re-normalises to "a", a plain token. */
  lemma PaddedTokenTrims()
    ensures ParseKey("a ") == ParseKey("a") && IsPlainToken("a")
  {
    assert Lower("a ") == "a " && Lower("a") == "a";
    assert 'a' !in KeyTrimChars && ' ' in KeyTrimChars;
    assert "a "[..1] == "a";
    assert TrimEnd("a", KeyTrimChars) == "a";
    assert TrimEnd("a ", KeyTrimChars) == "a";
    assert TrimStart("a", KeyTrimChars) == "a";
    assert NormalizeKey("a ") == "a" == NormalizeKey("a");
    assert 'a' !in Whitespace && 'a' != RootDescriptor && Divider !in "a";
  }

  /** A doubled descriptor loses exactly one copy. */
  lemma DoubleRootDescriptor()
    ensures ParseKey("~~a").callsRoot && ParseKey("~~a").rootlessQuery == "~a"
  {
    assert "~~a" == [RootDescriptor] + "~a";
    assert Lower("~a") == "~a";
    FixedIsLower("~a");
    assert 'a' !in KeyTrimChars;
    RootedQuery("~a");
  }

  // ---------------------------------------------------------------------------
  // Plain paths: the keys for which normalisation and parsing are transparent
  // ---------------------------------------------------------------------------

  /**
   * A token that names a node or a value and survives every re-normalisation
   * unchanged: non-empty, no divider, lower case, not "0", no leading root
   * descriptor, and no whitespace at either end (so `HiveIdentity` keeps it
   * as the node name).
   */
  predicate IsPlainToken(t: string) {
    && |t| > 0
    && Divider !in t
    && t != "0"
    && t[0] != RootDescriptor
    && t[0] !in Whitespace && t[|t| - 1] !in Whitespace
    && Lower(t) == t
  }

  predicate IsPlainPath(ts: seq<string>) {
    |ts| >= 1 && forall i :: 0 <= i < |ts| ==> IsPlainToken(ts[i])
  }

  function JoinPath(ts: seq<string>): string {
    Implode(ts, Divider)
  }

  lemma LowerConcat(a: string, b: string)
    requires IsLower(a) && IsLower(b)
    ensures IsLower(a + b)
  {
    forall i | 0 <= i < |a + b|
      ensures !IsUpper((a + b)[i])
    {
      if i < |a| {
        assert (a + b)[i] == a[i];
      } else {
        assert (a + b)[i] == b[i - |a|];
      }
    }
  }

  lemma {:induction false} ImplodeLower(ts: seq<string>, d: char)
    requires forall i :: 0 <= i < |ts| ==> IsLower(ts[i])
    requires !IsUpper(d)
    ensures IsLower(Implode(ts, d))
  {
    if |ts| > 1 {
      ImplodeLower(ts[1..], d);
      LowerConcat(ts[0], [d]);
      LowerConcat(ts[0] + [d], Implode(ts[1..], d));
    }
  }

  lemma {:induction false} ImplodeEnds(ts: seq<string>, d: char)
    requires |ts| >= 1
    requires forall i :: 0 <= i < |ts| ==> |ts[i]| > 0
    ensures |Implode(ts, d)| > 0
    ensures Implode(ts, d)[0] == ts[0][0]
    ensures Implode(ts, d)[|Implode(ts, d)| - 1] == ts[|ts| - 1][|ts[|ts| - 1]| - 1]
  {
    if |ts| > 1 {
      ImplodeEnds(ts[1..], d);
    }
  }

  lemma PlainPathNormal(ts: seq<string>)
    requires IsPlainPath(ts)
    ensures NormalizeKey(JoinPath(ts)) == JoinPath(ts)
    ensures |JoinPath(ts)| > 0 && JoinPath(ts)[0] == ts[0][0]
  {
    var p := JoinPath(ts);
    forall i | 0 <= i < |ts| ensures IsLower(ts[i]) && |ts[i]| > 0 {
      assert IsPlainToken(ts[i]);
      FixedIsLower(ts[i]);
    }
    ImplodeLower(ts, Divider);
    LowerOfLower(p);
    ImplodeEnds(ts, Divider);
  }

  lemma PlainPathTokens(ts: seq<string>)
    requires IsPlainPath(ts)
    ensures Explode(JoinPath(ts), Divider) == ts
    ensures Count(JoinPath(ts), Divider) + 1 == |ts|
  {
    assert forall i :: 0 <= i < |ts| ==> Divider !in ts[i];
    ExplodeImplode(ts, Divider);
    ExplodeCount(JoinPath(ts), Divider);
  }

  lemma PlainPathNotEmpty(ts: seq<string>)
    requires |ts| >= 1 && |ts[0]| > 0 && ts[0] != "0"
    ensures !PhpEmpty(JoinPath(ts))
  {
    if |ts| == 1 {
      assert JoinPath(ts) == ts[0];
    } else {
      assert JoinPath(ts) == ts[0] + [Divider] + JoinPath(ts[1..]);
    }
  }

  /**
   * A plain path is already normalised, and parsing it gives back its tokens:
   * the first and last token, the remainder after the first token and the
   * node path before the last token.
   */
  lemma PlainPathParses(ts: seq<string>)
    requires IsPlainPath(ts)
    ensures NormalizeKey(JoinPath(ts)) == JoinPath(ts)
    ensures var q := ParseKey(JoinPath(ts));
      && !q.IsEmpty()
      && !q.callsRoot
      && q.rootlessQuery == JoinPath(ts)
      && q.tokenCount == |ts|
      && q.firstToken == ts[0]
      && q.lastToken == ts[|ts| - 1]
      && (|ts| > 1 ==> q.query == Some(JoinPath(ts[1..])))
      && (|ts| > 2 ==>
            q.segmentedQuery.Some? && q.firstToken + [Divider] + q.segmentedQuery.value == JoinPath(ts[..|ts| - 1]))
  {
    var p := JoinPath(ts);
    PlainPathNormal(ts);
    assert ParseKey(p) == NewQuery(p);
    PlainPathTokens(ts);
    assert IsPlainToken(ts[0]);
    PlainPathQuery(ts);
  }

  lemma PlainPathQuery(ts: seq<string>)
    requires |ts| >= 1 && |ts[0]| > 0 && ts[0] != "0" && ts[0][0] != RootDescriptor
    requires JoinPath(ts)[0] == ts[0][0]
    requires Explode(JoinPath(ts), Divider) == ts
    requires Count(JoinPath(ts), Divider) + 1 == |ts|
    ensures var q := NewQuery(JoinPath(ts));
      && !q.IsEmpty()
      && !q.callsRoot
      && q.rootlessQuery == JoinPath(ts)
      && q.tokenCount == |ts|
      && q.firstToken == ts[0]
      && q.lastToken == ts[|ts| - 1]
      && (|ts| > 1 ==> q.query == Some(JoinPath(ts[1..])))
      && (|ts| > 2 ==> q.firstToken + [Divider] + q.segmentedQuery.value == JoinPath(ts[..|ts| - 1]))
  {
    var p := JoinPath(ts);
    PlainPathNotEmpty(ts);
    var q := NewQuery(p);
    assert !q.callsRoot && q.rootlessQuery == p;
    if |ts| == 1 {
      assert p == ts[0];
    } else if |ts| == 2 {
      assert ts[1..] == [ts[1]];
      assert p == ts[0] + [Divider] + ts[1];
    } else {
      PlainPathSplit(ts, q);
    }
  }

  lemma PlainPathSplit(ts: seq<string>, q: Query)
    requires |ts| > 2
    requires Explode(JoinPath(ts), Divider) == ts
    requires q == NewQuery(JoinPath(ts)) && !q.callsRoot && q.tokenCount == |ts|
    ensures q.firstToken == ts[0] && q.lastToken == ts[|ts| - 1]
    ensures q.query == Some(JoinPath(ts[1..]))
    ensures q.firstToken + [Divider] + q.segmentedQuery.value == JoinPath(ts[..|ts| - 1])
  {
    SplitTokens(ts, q);
    SplitJoins(ts);
  }

  lemma SplitTokens(ts: seq<string>, q: Query)
    requires |ts| > 2
    requires Explode(JoinPath(ts), Divider) == ts
    requires q == NewQuery(JoinPath(ts)) && !q.callsRoot && q.tokenCount == |ts|
    ensures q.firstToken == ts[0] && q.lastToken == ts[|ts| - 1]
    ensures q.segmentedQuery == Some(JoinPath(ts[1..|ts| - 1]))
    ensures q.query == Some(JoinPath(ts[1..|ts| - 1]) + [Divider] + ts[|ts| - 1])
  {
  }

  lemma SplitJoins(ts: seq<string>)
    requires |ts| > 2
    ensures JoinPath(ts[1..]) == JoinPath(ts[1..|ts| - 1]) + [Divider] + ts[|ts| - 1]
    ensures JoinPath(ts[..|ts| - 1]) == ts[0] + [Divider] + JoinPath(ts[1..|ts| - 1])
  {
    var n := |ts|;
    var middle := ts[1..n - 1];
    ImplodeSnoc(middle, ts[n - 1], Divider);
    assert ts[1..] == middle + [ts[n - 1]];
    assert ts[..n - 1][1..] == middle;
  }
}
