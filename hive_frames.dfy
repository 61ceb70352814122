/**
 * What the writing operations leave alone. Creating nodes writes no value
 * and adds exactly the nodes missing along the path; `set` on a plain path
 * writes one value at one node; no operation removes a stored key.
 */
module HiveFrames {
  import opened Wrappers
  import opened HiveTypes
  import opened HiveQuery
  import opened HiveStore
  import opened HiveProperties

  /** The values node `id` holds in `s`; none for a node `s` does not have yet. */
  function ValuesIn(s: Store, id: NodeId): map<string, Value> {
    if id in s.nodes then s.nodes[id].values else map[]
  }

  /** No node lost, no value written or removed, and every new node holds no value. */
  ghost predicate KeepsValues(s: Store, t: Store) {
    && (forall id :: id in s.nodes ==> id in t.nodes)
    && forall id :: id in t.nodes ==> t.nodes[id].values == ValuesIn(s, id)
  }

  /** The one value that differs between `s` and `t` is the one under `k` at node `c`. */
  ghost predicate WritesOnly(s: Store, t: Store, c: NodeId, k: string) {
    && (forall id :: id in s.nodes ==> id in t.nodes)
    && c in t.nodes && k in t.nodes[c].values
    && t.nodes[c].values == ValuesIn(s, c)[k := t.nodes[c].values[k]]
    && forall id :: id in t.nodes && id != c ==> t.nodes[id].values == ValuesIn(s, id)
  }

  /** No node lost and no stored key removed. */
  ghost predicate KeepsValueKeys(s: Store, t: Store) {
    forall id :: id in s.nodes ==> id in t.nodes && s.nodes[id].values.Keys <= t.nodes[id].values.Keys
  }

  lemma KeepsValuesTransitive(s: Store, t: Store, u: Store)
    requires KeepsValues(s, t) && KeepsValues(t, u)
    ensures KeepsValues(s, u)
  {
    forall id | id in u.nodes ensures u.nodes[id].values == ValuesIn(s, id) {
      if id !in t.nodes {
        assert id !in s.nodes;
      }
    }
  }

  lemma KeepsValueKeysTransitive(s: Store, t: Store, u: Store)
    requires KeepsValueKeys(s, t) && KeepsValueKeys(t, u)
    ensures KeepsValueKeys(s, u)
  {
  }

  lemma KeepsValuesKeys(s: Store, t: Store)
    requires KeepsValues(s, t)
    ensures KeepsValueKeys(s, t)
  {
    forall id | id in s.nodes ensures id in t.nodes && s.nodes[id].values.Keys <= t.nodes[id].values.Keys {
      assert t.nodes[id].values == ValuesIn(s, id);
    }
  }

  // ---------------------------------------------------------------------------
  // Node creation
  // ---------------------------------------------------------------------------

  /** Linking a new child writes no value and gives the child none. */
  lemma CreateChildKeepsValues(s: Store, self: NodeId, token: string)
    requires Valid(s) && self in s.nodes && token !in s.nodes[self].nodes
    ensures KeepsValues(s, CreateChild(s, self, token).store)
  {
    var r := CreateChild(s, self, token);
    if r.result.Ok? {
      var c := r.store.nodes[self].nodes[token];
      forall id | id in r.store.nodes ensures r.store.nodes[id].values == ValuesIn(s, id) {
        if id != c && id != self {
          assert r.store.nodes[id] == s.nodes[id];
        }
      }
    }
  }

  /** Linking a new child adds exactly one node. */
  lemma CreateChildAddsOne(s: Store, self: NodeId, token: string)
    requires Valid(s) && self in s.nodes && token !in s.nodes[self].nodes
    requires CreateChild(s, self, token).result.Ok?
    ensures |CreateChild(s, self, token).store.nodes| == |s.nodes| + 1
  {
    var r := CreateChild(s, self, token);
    var c := r.store.nodes[self].nodes[token];
    var m := s.nodes[self := s.nodes[self].(nodes := s.nodes[self].nodes[token := c])];
    assert |m| == |s.nodes|;
  }

  /** `node(p, create)` writes no value anywhere, whatever the key. */
  lemma {:induction false} NodeKeepsValues(s: Store, self: NodeId, entity: string, create: bool)
    requires Valid(s) && self in s.nodes
    ensures KeepsValues(s, Node(s, self, entity, create).store)
    decreases |entity|, 3
  {
    ParseKeyShrinks(entity);
    NodeQueryKeepsValues(s, self, ParseKey(entity), create);
  }

  lemma {:induction false} NodeQueryKeepsValues(s: Store, self: NodeId, q: Query, create: bool)
    requires Valid(s) && self in s.nodes && Parsed(q)
    ensures KeepsValues(s, NodeQuery(s, self, q, create).store)
    decreases |q.fullQuery|, 2
  {
    if create && !q.IsEmpty() && !q.callsRoot {
      NodeCreateKeepsValues(s, self, q);
    } else {
      assert NodeQuery(s, self, q, create).store == s;
    }
  }

  /** The creating walk below the first token. */
  lemma {:induction false} NodeCreateKeepsValues(s: Store, self: NodeId, q: Query)
    requires Valid(s) && self in s.nodes && Parsed(q) && !q.IsEmpty() && !q.callsRoot
    ensures KeepsValues(s, NodeQuery(s, self, q, true).store)
    decreases |q.fullQuery|, 1
  {
    var t := if q.firstToken !in s.nodes[self].nodes then CreateChild(s, self, q.firstToken) else Step(s, Ok(()));
    if q.firstToken !in s.nodes[self].nodes {
      CreateChildKeepsValues(s, self, q.firstToken);
    }
    if t.result.Ok? && q.firstToken in t.store.nodes[self].nodes && q.query.Some? {
      NodeChildKeepsValues(s, t, self, q);
    } else {
      assert NodeQuery(s, self, q, true).store == t.store;
    }
  }

  /** The descent into the child, after the child for the first token exists. */
  lemma {:induction false} NodeChildKeepsValues(s: Store, t: Step<()>, self: NodeId, q: Query)
    requires Valid(s) && self in s.nodes && Parsed(q) && !q.IsEmpty() && !q.callsRoot && q.query.Some?
    requires t == if q.firstToken !in s.nodes[self].nodes then CreateChild(s, self, q.firstToken) else Step(s, Ok(()))
    requires t.result.Ok? && q.firstToken in t.store.nodes[self].nodes && KeepsValues(s, t.store)
    ensures KeepsValues(s, NodeQuery(s, self, q, true).store)
    decreases |q.fullQuery|, 0
  {
    QueryShrinks(q);
    assert NodeValid(t.store, self);
    var child := t.store.nodes[self].nodes[q.firstToken];
    assert NodeQuery(s, self, q, true) == Node(t.store, child, q.query.value, true);
    NodeKeepsValues(t.store, child, q.query.value, true);
    KeepsValuesTransitive(s, t.store, Node(t.store, child, q.query.value, true).store);
  }

  /** How many tokens of `ts`, from the first one without a child, are missing in `s`. */
  function Missing(s: Store, id: NodeId, ts: seq<string>): (r: nat)
    requires Valid(s) && id in s.nodes
    ensures r <= |ts|
    ensures r == 0 <==> Lookup(s, id, ts).Some?
    decreases |ts|
  {
    if ts == [] then 0
    else if ts[0] !in s.nodes[id].nodes then |ts|
    else
      assert NodeValid(s, id);
      Missing(s, s.nodes[id].nodes[ts[0]], ts[1..])
  }

  /**
   * `node(p, true)` on a plain path creates exactly the nodes missing along
   * `p`, one per token from the first missing one on, writes no value, and
   * yields a new node exactly when something was missing.
   */
  lemma {:induction false} NodeCreatesOnlyMissing(s: Store, id: NodeId, ts: seq<string>)
    requires Valid(s) && id in s.nodes && IsPlainPath(ts)
    ensures var r := Node(s, id, JoinPath(ts), true);
      && r.store.next == s.next + Missing(s, id, ts)
      && |r.store.nodes| == |s.nodes| + Missing(s, id, ts)
      && KeepsValues(s, r.store)
      && r.result.Ok? && r.result.value.Some?
      && (r.result.value.value in s.nodes <==> Missing(s, id, ts) == 0)
    decreases |ts|
  {
    NodeCreatePlain(s, id, ts);
    NodeCreates(s, id, ts);
    NodeKeepsValues(s, id, JoinPath(ts), true);
    var t := if ts[0] !in s.nodes[id].nodes then CreateChild(s, id, ts[0]) else Step(s, Ok(()));
    if ts[0] !in s.nodes[id].nodes {
      CreateChildKeepsValues(s, id, ts[0]);
      CreateChildAddsOne(s, id, ts[0]);
    }
    var child := t.store.nodes[id].nodes[ts[0]];
    assert NodeValid(t.store, id);
    if |ts| > 1 {
      PlainPathTail(ts);
      NodeCreatesOnlyMissing(t.store, child, ts[1..]);
      if ts[0] !in s.nodes[id].nodes {
        assert ts[1..][0] !in t.store.nodes[child].nodes;
      }
    }
  }

  // ---------------------------------------------------------------------------
  // set
  // ---------------------------------------------------------------------------

  /** The covered value is stored under the token at the node and nowhere else. */
  lemma Store1WritesOnly(s: Store, c: NodeId, t: string, v: Value)
    requires Valid(s) && c in s.nodes
    ensures var u := Store1(s, c, t, v);
      && WritesOnly(s, u, c, t) && u.nodes[c].values[t] == Cover(s, c, t, v).1
      && u.nodes.Keys == s.nodes.Keys && u.next == s.next
  {
  }

  lemma WritesAfterKeeps(s: Store, m: Store, u: Store, c: NodeId, k: string)
    requires KeepsValues(s, m) && WritesOnly(m, u, c, k)
    ensures WritesOnly(s, u, c, k)
  {
    forall id | id in u.nodes && id != c ensures u.nodes[id].values == ValuesIn(s, id) {
      if id !in m.nodes {
        assert id !in s.nodes;
      }
    }
    if c !in m.nodes {
      assert c !in s.nodes;
    }
  }

  /** Materialising the node path in front of the last token writes no value and adds only what is missing. */
  lemma MaterialiseKeeps(s: Store, id: NodeId, ts: seq<string>)
    requires Valid(s) && id in s.nodes && IsPlainPath(ts)
    ensures var m := Materialise(s, id, Init(ts));
      && KeepsValues(s, m.store)
      && |m.store.nodes| == |s.nodes| + Missing(s, id, Init(ts))
  {
    if |ts| > 1 {
      PlainPathTail(ts);
      NodeCreatesOnlyMissing(s, id, Init(ts));
    }
  }

  /**
   * `set(p, v)` on a plain path writes one value: the covered `v` under the
   * last token at the node the path in front of it leads to afterwards. It
   * adds exactly the nodes missing along that path.
   */
  lemma SetWritesOne(s: Store, id: NodeId, ts: seq<string>, v: Value)
    requires Valid(s) && id in s.nodes && IsPlainPath(ts)
    ensures var r := Set(s, id, JoinPath(ts), v);
      && Lookup(r.store, id, Init(ts)).Some?
      && var c := Lookup(r.store, id, Init(ts)).value;
      && WritesOnly(s, r.store, c, Last(ts))
      && (Last(ts) !in r.store.nodes[c].declarations ==> r.store.nodes[c].values[Last(ts)] == v)
      && |r.store.nodes| == |s.nodes| + Missing(s, id, Init(ts))
  {
    SetWalks(s, id, ts, v);
    MaterialiseKeeps(s, id, ts);
    var m := Materialise(s, id, Init(ts));
    var c := m.result.value.value;
    Store1WritesOnly(m.store, c, Last(ts), v);
    var u := Store1(m.store, c, Last(ts), v);
    LookupExtends(m.store, u, id, Init(ts));
    WritesAfterKeeps(s, m.store, u, c, Last(ts));
  }

  /** Exactly one value, at some node under some key, differs between `s` and `t`. */
  ghost predicate WritesOne(s: Store, t: Store) {
    exists c, k :: WritesOnly(s, t, c, k)
  }

  lemma KeepsThenWrites(s: Store, m: Store, u: Store)
    requires KeepsValues(s, m) && WritesOne(m, u)
    ensures WritesOne(s, u)
  {
    var c, k :| WritesOnly(m, u, c, k);
    WritesAfterKeeps(s, m, u, c, k);
  }

  lemma WritesOneKeys(s: Store, t: Store)
    requires WritesOne(s, t)
    ensures KeepsValueKeys(s, t)
  {
    var c, k :| WritesOnly(s, t, c, k);
    forall id | id in s.nodes ensures id in t.nodes && s.nodes[id].values.Keys <= t.nodes[id].values.Keys {
      assert ValuesIn(s, id) == s.nodes[id].values;
    }
  }

  /**
   * `set`, whatever the key, writes exactly one value when it succeeds and
   * none when it throws; the nodes it creates on the way hold no value.
   */
  lemma {:induction false} SetWritesAtMostOne(s: Store, self: NodeId, entity: string, value: Value)
    requires Valid(s) && self in s.nodes
    ensures var r := Set(s, self, entity, value);
      && (r.result.Ok? ==> WritesOne(s, r.store))
      && (r.result.Err? ==> KeepsValues(s, r.store))
    decreases |entity|, 2
  {
    ParseKeyShrinks(entity);
    SetQueryWritesAtMostOne(s, self, ParseKey(entity), value);
  }

  lemma {:induction false} SetQueryWritesAtMostOne(s: Store, self: NodeId, q: Query, value: Value)
    requires Valid(s) && self in s.nodes && Parsed(q)
    ensures var r := SetQuery(s, self, q, value);
      && (r.result.Ok? ==> WritesOne(s, r.store))
      && (r.result.Err? ==> KeepsValues(s, r.store))
    decreases |q.fullQuery|, 1
  {
    QueryShrinks(q);
    if q.IsEmpty() {
    } else if q.callsRoot {
      SetWritesAtMostOne(s, Root(s, self), q.rootlessQuery, value);
    } else if q.tokenCount > 1 {
      SetPathWritesAtMostOne(s, self, q, value);
    } else {
      assert SetQuery(s, self, q, value).store == Store1(s, self, q.firstToken, value);
      Store1WritesOnly(s, self, q.firstToken, value);
    }
  }

  /** The longer key: the node path is materialised, then the last token is set there. */
  lemma {:induction false} SetPathWritesAtMostOne(s: Store, self: NodeId, q: Query, value: Value)
    requires Valid(s) && self in s.nodes && Parsed(q) && !q.IsEmpty() && !q.callsRoot && q.tokenCount > 1
    ensures var r := SetQuery(s, self, q, value);
      && (r.result.Ok? ==> WritesOne(s, r.store))
      && (r.result.Err? ==> KeepsValues(s, r.store))
    decreases |q.fullQuery|, 0
  {
    QueryShrinks(q);
    var n := Node(s, self, NodePath(q), true);
    NodeKeepsValues(s, self, NodePath(q), true);
    if n.result.Ok? && n.result.value.Some? {
      var c := n.result.value.value;
      var r := Set(n.store, c, q.lastToken, value);
      assert SetQuery(s, self, q, value) == r;
      SetWritesAtMostOne(n.store, c, q.lastToken, value);
      if r.result.Ok? {
        KeepsThenWrites(s, n.store, r.store);
      } else {
        KeepsValuesTransitive(s, n.store, r.store);
      }
    }
  }

  /** So `set` never removes a node or a stored key. */
  lemma SetKeepsKeys(s: Store, self: NodeId, entity: string, value: Value)
    requires Valid(s) && self in s.nodes
    ensures KeepsValueKeys(s, Set(s, self, entity, value).store)
  {
    SetWritesAtMostOne(s, self, entity, value);
    var r := Set(s, self, entity, value);
    if r.result.Ok? {
      WritesOneKeys(s, r.store);
    } else {
      KeepsValuesKeys(s, r.store);
    }
  }
}
