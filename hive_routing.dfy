/**
 * How a key reaches the node it names: every operation sees a key only
 * through its normalised, parsed query, and a leading root descriptor sends
 * the rest of the query to the root of the tree.
 */
module HiveRouting {
  import opened Wrappers
  import opened HiveTypes
  import opened HiveQuery
  import opened HiveStore
  import opened HiveProperties

  /** Keys that parse to the same query act alike in every operation. */
  lemma SameQuery(s: Store, id: NodeId, e1: string, e2: string, v: Value, create: bool)
    requires Valid(s) && id in s.nodes && ParseKey(e1) == ParseKey(e2)
    ensures Get(s, id, e1) == Get(s, id, e2)
    ensures Has(s, id, e1) == Has(s, id, e2)
    ensures Set(s, id, e1, v) == Set(s, id, e2, v)
    ensures Node(s, id, e1, create) == Node(s, id, e2, create)
  {
  }

  /** Any spelling that normalises to a plain path parses as that path. */
  lemma SpellingParses(e: string, ts: seq<string>)
    requires IsPlainPath(ts) && NormalizeKey(e) == JoinPath(ts)
    ensures ParseKey(e) == ParseKey(JoinPath(ts))
  {
    PlainPathNormal(ts);
  }

  /**
   * The round trip for any spelling: after `set(e1, v)`, `get(e2)` yields
   * `v` (a closure called) and `has(e2)` is true whenever `e1` and `e2`
   * normalise to the same plain path and its last token is not declared
   * where it is stored.
   */
  lemma SetThenGetAnySpelling(s: Store, id: NodeId, ts: seq<string>, v: Value, e1: string, e2: string)
    requires Valid(s) && id in s.nodes && IsPlainPath(ts) && LastUndeclared(s, id, ts)
    requires NormalizeKey(e1) == JoinPath(ts) && NormalizeKey(e2) == JoinPath(ts)
    ensures var r := Set(s, id, e1, v);
      && r.result == Ok(())
      && Get(r.store, id, e2).result == Ok(Resolve(v))
      && Has(r.store, id, e2).result == Ok(true)
  {
    SpellingParses(e1, ts);
    SpellingParses(e2, ts);
    SetThenGet(s, id, ts, v);
    SameQuery(s, id, e1, JoinPath(ts), v, false);
    var r := Set(s, id, JoinPath(ts), v);
    SameQuery(r.store, id, e2, JoinPath(ts), v, false);
  }

  /** Upper case and padding dots and spaces do not matter: " Foo.BAR. " names the path foo.bar. */
  lemma MixedCaseSpelling()
    ensures IsPlainPath(["foo", "bar"])
    ensures NormalizeKey(" Foo.BAR. ") == JoinPath(["foo", "bar"])
  {
    FooBarPlain();
    assert Lower(" Foo.BAR. ") == " foo.bar. ";
    FooBarTrims();
  }

  lemma FooBarPlain()
    ensures IsPlainPath(["foo", "bar"]) && JoinPath(["foo", "bar"]) == "foo.bar"
  {
    assert IsPlainToken("foo") && IsPlainToken("bar");
    assert ["foo", "bar"][1..] == ["bar"];
  }

  lemma FooBarTrims()
    ensures Trim(" foo.bar. ", KeyTrimChars) == "foo.bar"
  {
    var padded := " foo.bar. ";
    assert ' ' in KeyTrimChars && '.' in KeyTrimChars && 'f' !in KeyTrimChars && 'r' !in KeyTrimChars;
    assert padded[1..] == "foo.bar. ";
    assert TrimStart("foo.bar. ", KeyTrimChars) == "foo.bar. ";
    assert TrimStart(padded, KeyTrimChars) == "foo.bar. ";
    assert "foo.bar. "[..8] == "foo.bar." && "foo.bar."[..7] == "foo.bar";
    assert TrimEnd("foo.bar", KeyTrimChars) == "foo.bar";
    assert TrimEnd("foo.bar. ", KeyTrimChars) == "foo.bar";
  }

  /** `secure(c)` stored under a path reads back as `c` itself, not as what `c` yields. */
  lemma SecureRoundTrip(s: Store, id: NodeId, ts: seq<string>, c: Value)
    requires Valid(s) && id in s.nodes && IsPlainPath(ts) && LastUndeclared(s, id, ts) && c.Closure?
    ensures var r := Set(s, id, JoinPath(ts), Secure(c));
      r.result == Ok(()) && Get(r.store, id, JoinPath(ts)).result == Ok(c)
  {
    SetThenGet(s, id, ts, Secure(c));
  }

  // ---------------------------------------------------------------------------
  // Padding inside a key
  // ---------------------------------------------------------------------------

  /** "a" and "b" are plain tokens, and "a.b" joins them. */
  lemma DottedKeyPlain()
    ensures IsPlainPath(["a", "b"]) && JoinPath(["a", "b"]) == "a.b"
  {
    PlainLetters();
    var ts := ["a", "b"];
    assert ts[0] == "a" && ts[1] == "b";
    assert ts[1..] == ["b"];
    assert Implode(ts[1..], Divider) == "b";
  }

  lemma PlainLetters()
    ensures IsPlainToken("a") && IsPlainToken("b")
  {
    assert Lower("a") == "a" && Lower("b") == "b";
    assert 'a' !in Whitespace && 'b' !in Whitespace;
  }

  /** "a.b" is the plain path a, b. */
  lemma DottedKeyQuery()
    ensures IsPlainPath(["a", "b"]) && JoinPath(["a", "b"]) == "a.b"
    ensures var q := ParseKey("a.b");
      && !q.IsEmpty() && !q.callsRoot && q.tokenCount == 2 && NodePath(q) == "a" && q.lastToken == "b"
  {
    DottedKeyPlain();
    var ts := ["a", "b"];
    PlainPathParses(ts);
    PlainNodePath(ts);
    assert Init(ts) == ["a"];
  }

  /**
   * `set` and `has` hand the node path of a key to `node`, which normalises
   * it again, so the space in "a .b" is trimmed away there and the key acts
   * as "a.b"; `get` looks the untrimmed first token "a " up among the
   * children itself.
   */
  lemma PaddedKeyActsDotted(s: Store, id: NodeId, v: Value)
    requires Valid(s) && id in s.nodes
    ensures Set(s, id, "a .b", v) == Set(s, id, "a.b", v)
    ensures Has(s, id, "a .b") == Has(s, id, "a.b")
    ensures "a " !in s.nodes[id].nodes ==> Get(s, id, "a .b") == Step(s, Err(UnknownEntity))
  {
    PaddedKeyQuery();
    DottedKeyQuery();
    PaddedTokenTrims();
    SameQuery(s, id, "a ", "a", v, true);
    SetStep(s, id, "a .b", "a ", "b", v);
    SetStep(s, id, "a.b", "a", "b", v);
    HasStep(s, id, "a .b", "a ", "b");
    HasStep(s, id, "a.b", "a", "b");
    GetStep(s, id, "a .b", "a ", "b");
  }

  /** `set('a.b', v)` adds no child under "a " to the node it is called on. */
  lemma DottedSetAddsNoPadded(s: Store, id: NodeId, v: Value)
    requires Valid(s) && id in s.nodes && "a " !in s.nodes[id].nodes
    ensures "a " !in Set(s, id, "a.b", v).store.nodes[id].nodes
  {
    DottedSetWalk(s, id, v);
    PlainLetters();
    NodeAddsOne(s, id, "a");
    var m := Node(s, id, "a", true);
    Store1Children(m.store, m.result.value.value, "b", v, id);
  }

  /** `set('a.b', v)` is `node('a', true)` followed by storing under "b" there. */
  lemma DottedSetWalk(s: Store, id: NodeId, v: Value)
    requires Valid(s) && id in s.nodes
    ensures var m := Node(s, id, "a", true);
      && m.result.Ok? && m.result.value.Some? && m.result.value.value in m.store.nodes
      && Set(s, id, "a.b", v) == Step(Store1(m.store, m.result.value.value, "b", v), Ok(()))
  {
    DottedKeyQuery();
    PlainLetters();
    SetStep(s, id, "a.b", "a", "b", v);
    NodeAddsOne(s, id, "a");
    var m := Node(s, id, "a", true);
    SetOne(m.store, m.result.value.value, "b", v);
  }

  /** `node(t, true)` for a plain token adds at most the child `t` to the node. */
  lemma NodeAddsOne(s: Store, id: NodeId, t: string)
    requires Valid(s) && id in s.nodes && IsPlainToken(t)
    ensures var r := Node(s, id, t, true);
      && Valid(r.store) && id in r.store.nodes && r.result.Ok? && r.result.value.Some? && r.result.value.value in r.store.nodes
      && r.store.nodes[id].nodes.Keys == s.nodes[id].nodes.Keys + {t}
  {
    PlainTokenQuery(t);
    NodeCreatePlain(s, id, [t]);
  }

  /** Storing a value links no child anywhere. */
  lemma Store1Children(s: Store, c: NodeId, t: string, v: Value, id: NodeId)
    requires Valid(s) && c in s.nodes && id in s.nodes
    ensures id in Store1(s, c, t, v).nodes && Store1(s, c, t, v).nodes[id].nodes == s.nodes[id].nodes
  {
  }

  /**
   * What `set('a .b', v)` leaves behind under a node without an "a " child:
   * `has('a .b')` and `get('a.b')` find the value, but `get('a .b')` raises
   * for an unknown entity.
   */
  lemma PaddedKeySetNotGot(s: Store, id: NodeId, v: Value)
    requires Valid(s) && id in s.nodes && LastUndeclared(s, id, ["a", "b"]) && "a " !in s.nodes[id].nodes
    ensures var r := Set(s, id, "a .b", v);
      && r.result == Ok(())
      && Has(r.store, id, "a .b").result == Ok(true)
      && Get(r.store, id, "a.b").result == Ok(Resolve(v))
      && Get(r.store, id, "a .b") == Step(r.store, Err(UnknownEntity))
  {
    DottedKeyQuery();
    PaddedKeyActsDotted(s, id, v);
    SetThenGet(s, id, ["a", "b"], v);
    DottedSetAddsNoPadded(s, id, v);
    PaddedKeyActsDotted(Set(s, id, "a.b", v).store, id, v);
  }

  // ---------------------------------------------------------------------------
  // The root redirect
  // ---------------------------------------------------------------------------

  /** Every node reached by walking down from `a` belongs to the tree of `a`. */
  lemma {:induction false} LookupRoot(s: Store, a: NodeId, ts: seq<string>)
    requires Valid(s) && a in s.nodes && Lookup(s, a, ts).Some?
    ensures Root(s, Lookup(s, a, ts).value) == Root(s, a)
    decreases |ts|
  {
    if ts != [] {
      assert NodeValid(s, a);
      var c := s.nodes[a].nodes[ts[0]];
      assert ChildValid(s, a, ts[0], c);
      LookupRoot(s, c, ts[1..]);
    }
  }

  /**
   * A query with a leading root descriptor gives the same result, and the
   * same store, from any two nodes of one tree.
   */
  lemma RootRedirect(s: Store, a: NodeId, b: NodeId, e: string, v: Value, create: bool)
    requires Valid(s) && a in s.nodes && b in s.nodes && Root(s, a) == Root(s, b)
    requires ParseKey(e).callsRoot
    ensures Get(s, a, e) == Get(s, b, e)
    ensures Has(s, a, e) == Has(s, b, e)
    ensures Set(s, a, e, v) == Set(s, b, e, v)
    ensures Node(s, a, e, create) == Node(s, b, e, create)
  {
  }

  /** In particular from a node and any node below it. */
  lemma RootRedirectBelow(s: Store, a: NodeId, ts: seq<string>, e: string, v: Value, create: bool)
    requires Valid(s) && a in s.nodes && Lookup(s, a, ts).Some?
    requires ParseKey(e).callsRoot
    ensures var b := Lookup(s, a, ts).value;
      && Get(s, a, e) == Get(s, b, e)
      && Has(s, a, e) == Has(s, b, e)
      && Set(s, a, e, v) == Set(s, b, e, v)
      && Node(s, a, e, create) == Node(s, b, e, create)
  {
    LookupRoot(s, a, ts);
    RootRedirect(s, a, Lookup(s, a, ts).value, e, v, create);
  }

  /** `~p` for a plain path `p` calls the root with exactly `p`. */
  lemma TildePath(ts: seq<string>)
    requires IsPlainPath(ts)
    ensures var q := ParseKey([RootDescriptor] + JoinPath(ts));
      !q.IsEmpty() && q.callsRoot && q.rootlessQuery == JoinPath(ts)
  {
    var p := JoinPath(ts);
    PlainPathNormal(ts);
    assert IsLower(NormalizeKey(p));
    RootedQuery(p);
  }

  /** `get('~p')` anywhere in a tree is `get('p')` on its root, and likewise `has`, `set` and `node`. */
  lemma TildeGoesToRoot(s: Store, id: NodeId, ts: seq<string>, v: Value)
    requires Valid(s) && id in s.nodes && IsPlainPath(ts)
    ensures var e := [RootDescriptor] + JoinPath(ts);
      var root := Root(s, id);
      && Get(s, id, e) == Get(s, root, JoinPath(ts))
      && Has(s, id, e) == Has(s, root, JoinPath(ts))
      && Set(s, id, e, v) == Set(s, root, JoinPath(ts), v)
      && Node(s, id, e, true) == Node(s, root, JoinPath(ts), false)
  {
    TildePath(ts);
  }

  /** The root redirect of `node` drops the creation flag: `node('~p', true)` never creates. */
  lemma RootNodeNeverCreates(s: Store, id: NodeId, e: string)
    requires Valid(s) && id in s.nodes && ParseKey(e).callsRoot
    ensures Node(s, id, e, true) == Node(s, id, e, false)
    ensures Node(s, id, e, true).store == s
  {
  }

  /** A bare `~` leaves nothing to look up at the root, and is rejected as an empty query there. */
  lemma BareTildeRejected(s: Store, id: NodeId, v: Value, create: bool)
    requires Valid(s) && id in s.nodes
    ensures Get(s, id, "~") == Step(s, Err(UnknownEntity))
    ensures Has(s, id, "~") == Step(s, Err(UnknownEntity))
    ensures Set(s, id, "~", v) == Step(s, Err(UnknownEntity))
    ensures Node(s, id, "~", create) == Step(s, Err(UnknownEntity))
  {
    RootOnlyKey();
  }

  // ---------------------------------------------------------------------------
  // Repeated node calls
  // ---------------------------------------------------------------------------

  /**
   * After `node(p, true)`, asking again, with or without creation, yields
   * the same node and changes nothing.
   */
  lemma NodeTwice(s: Store, id: NodeId, ts: seq<string>)
    requires Valid(s) && id in s.nodes && IsPlainPath(ts)
    ensures var r := Node(s, id, JoinPath(ts), true);
      && Node(r.store, id, JoinPath(ts), true) == Step(r.store, r.result)
      && Node(r.store, id, JoinPath(ts), false) == Step(r.store, r.result)
  {
    NodeCreates(s, id, ts);
    var r := Node(s, id, JoinPath(ts), true);
    NodeCreates(r.store, id, ts);
    NodeFinds(r.store, id, ts);
  }
}
