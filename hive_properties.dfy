/**
 * What the node operations promise, stated against independent reference
 * definitions: `Lookup` follows child links token by token, `Read` and
 * `Contains` are what a read and a membership test at the end of that walk
 * give.
 */
module HiveProperties {
  import opened Wrappers
  import opened HiveTypes
  import opened HiveQuery
  import opened HiveIdentity
  import opened HiveStore

  /** The node reached from `id` by following the child links named `ts`. */
  function Lookup(s: Store, id: NodeId, ts: seq<string>): (r: Option<NodeId>)
    requires Valid(s) && id in s.nodes
    ensures r.Some? ==> r.value in s.nodes
    decreases |ts|
  {
    if ts == [] then Some(id)
    else if ts[0] !in s.nodes[id].nodes then None
    else
      assert NodeValid(s, id);
      Lookup(s, s.nodes[id].nodes[ts[0]], ts[1..])
  }

  /** Reading `key` at the end of a walk: a missing node or key is unknown. */
  function Read(s: Store, node: Option<NodeId>, key: string): Step<Value>
    requires Valid(s) && (node.Some? ==> node.value in s.nodes)
  {
    if node.None? || key !in s.nodes[node.value].values then Step(s, Err(UnknownEntity))
    else
      var v := Resolve(s.nodes[node.value].values[key]);
      Step(Notify(s, node.value, GetStage, None, v), Ok(v))
  }

  /** Testing `key` at the end of a walk: a missing node is a call on null. */
  function Contains(s: Store, node: Option<NodeId>, key: string): Result<bool, Error>
    requires Valid(s) && (node.Some? ==> node.value in s.nodes)
  {
    if node.None? then Err(NullReceiver) else Ok(key in s.nodes[node.value].values)
  }

  function Init(ts: seq<string>): seq<string>
    requires |ts| >= 1
  {
    ts[..|ts| - 1]
  }

  function Last(ts: seq<string>): string
    requires |ts| >= 1
  {
    ts[|ts| - 1]
  }

  // ---------------------------------------------------------------------------
  // Walks along plain paths
  // ---------------------------------------------------------------------------

  lemma PlainTokenName(t: string)
    requires IsPlainToken(t)
    ensures Trim(t, Whitespace) == t && !PhpEmpty(t)
  {
  }

  lemma PlainPathTail(ts: seq<string>)
    requires IsPlainPath(ts) && |ts| > 1
    ensures IsPlainPath(ts[1..]) && IsPlainPath(Init(ts)) && IsPlainPath([Last(ts)]) && IsPlainToken(ts[0])
  {
    assert IsPlainToken(ts[|ts| - 1]);
  }

  /** `node(p)` without creation is the walk along `p`, and changes nothing. */
  lemma {:induction false} NodeFinds(s: Store, id: NodeId, ts: seq<string>)
    requires Valid(s) && id in s.nodes && IsPlainPath(ts)
    ensures Node(s, id, JoinPath(ts), false) == Step(s, Ok(Lookup(s, id, ts)))
    decreases |ts|
  {
    NodeFindPlain(s, id, ts);
    if |ts| > 1 && ts[0] in s.nodes[id].nodes {
      PlainPathTail(ts);
      NodeFinds(s, s.nodes[id].nodes[ts[0]], ts[1..]);
    }
  }

  /** One step of `node` without creation along a plain path. */
  lemma NodeFindPlain(s: Store, id: NodeId, ts: seq<string>)
    requires Valid(s) && id in s.nodes && IsPlainPath(ts)
    ensures NodeValid(s, id)
    ensures Node(s, id, JoinPath(ts), false) ==
      if ts[0] !in s.nodes[id].nodes then Step(s, Ok(None))
      else if |ts| == 1 then Step(s, Ok(Some(s.nodes[id].nodes[ts[0]])))
      else Node(s, s.nodes[id].nodes[ts[0]], JoinPath(ts[1..]), false)
  {
    PlainPathParses(ts);
    if |ts| > 1 {
      NodeFindStep(s, id, JoinPath(ts), ts[0], Some(JoinPath(ts[1..])));
    } else {
      NodeFindStep(s, id, JoinPath(ts), ts[0], None);
    }
  }

  /** One step of `node` without creation on a query whose first token is `t` and whose remainder is `rest`. */
  lemma NodeFindStep(s: Store, id: NodeId, e: string, t: string, rest: Option<string>)
    requires Valid(s) && id in s.nodes
    requires var q := ParseKey(e);
      !q.IsEmpty() && !q.callsRoot && q.firstToken == t && q.query == rest
    ensures NodeValid(s, id)
    ensures Node(s, id, e, false) ==
      if t !in s.nodes[id].nodes then Step(s, Ok(None))
      else if rest.None? then Step(s, Ok(Some(s.nodes[id].nodes[t])))
      else Node(s, s.nodes[id].nodes[t], rest.value, false)
  {
  }

  /** One step of `node` with creation on a query whose first token is `t` and whose remainder is `rest`. */
  lemma NodeCreateStep(s: Store, id: NodeId, e: string, t: string, rest: Option<string>)
    requires Valid(s) && id in s.nodes
    requires var q := ParseKey(e);
      !q.IsEmpty() && !q.callsRoot && q.firstToken == t && q.query == rest
    ensures var c := if t !in s.nodes[id].nodes then CreateChild(s, id, t) else Step(s, Ok(()));
      && NodeValid(c.store, id)
      && Node(s, id, e, true) ==
        if c.result.Err? then Step(c.store, Err(c.result.error))
        else if t !in c.store.nodes[id].nodes then Step(c.store, Ok(None))
        else if rest.None? then Step(c.store, Ok(Some(c.store.nodes[id].nodes[t])))
        else Node(c.store, c.store.nodes[id].nodes[t], rest.value, true)
  {
  }

  /** A walk that succeeds still succeeds, to the same node, in any later store. */
  lemma {:induction false} LookupExtends(s: Store, t: Store, id: NodeId, ts: seq<string>)
    requires Valid(s) && Valid(t) && Extends(s, t) && id in s.nodes
    requires Lookup(s, id, ts).Some?
    ensures Lookup(t, id, ts) == Lookup(s, id, ts)
    decreases |ts|
  {
    if ts != [] {
      assert NodeValid(s, id);
      assert Keeps(s.nodes[id], t.nodes[id]);
      LookupExtends(s, t, s.nodes[id].nodes[ts[0]], ts[1..]);
    }
  }

  /**
   * `node(p, true)` always yields a node, reachable along `p` afterwards; when
   * the whole path already exists it creates nothing and yields that node,
   * and otherwise the node it yields is a new one.
   */
  lemma {:induction false} NodeCreates(s: Store, id: NodeId, ts: seq<string>)
    requires Valid(s) && id in s.nodes && IsPlainPath(ts)
    ensures var r := Node(s, id, JoinPath(ts), true);
      && r.result.Ok? && r.result.value.Some?
      && Lookup(r.store, id, ts) == r.result.value
      && (Lookup(s, id, ts).Some? ==> r == Step(s, Ok(Lookup(s, id, ts))))
      && (Lookup(s, id, ts).None? ==> r.result.value.value !in s.nodes)
    decreases |ts|
  {
    NodeCreatePlain(s, id, ts);
    var t := if ts[0] !in s.nodes[id].nodes then CreateChild(s, id, ts[0]) else Step(s, Ok(()));
    var child := t.store.nodes[id].nodes[ts[0]];
    if |ts| > 1 {
      PlainPathTail(ts);
      NodeCreates(t.store, child, ts[1..]);
      var r := Node(t.store, child, JoinPath(ts[1..]), true);
      assert Keeps(t.store.nodes[id], r.store.nodes[id]);
      assert NodeValid(r.store, id);
      if ts[0] !in s.nodes[id].nodes {
        assert ts[1..][0] !in t.store.nodes[child].nodes;
      }
    } else {
      assert ts[1..] == [];
    }
  }

  /** One step of `node` with creation along a plain path: the first token always yields a child. */
  lemma NodeCreatePlain(s: Store, id: NodeId, ts: seq<string>)
    requires Valid(s) && id in s.nodes && IsPlainPath(ts)
    ensures var c := if ts[0] !in s.nodes[id].nodes then CreateChild(s, id, ts[0]) else Step(s, Ok(()));
      && c.result.Ok? && NodeValid(c.store, id) && ts[0] in c.store.nodes[id].nodes
      && Node(s, id, JoinPath(ts), true) ==
        if |ts| == 1 then Step(c.store, Ok(Some(c.store.nodes[id].nodes[ts[0]])))
        else Node(c.store, c.store.nodes[id].nodes[ts[0]], JoinPath(ts[1..]), true)
  {
    PlainPathParses(ts);
    assert IsPlainToken(ts[0]);
    PlainTokenName(ts[0]);
    if |ts| > 1 {
      NodeCreateStep(s, id, JoinPath(ts), ts[0], Some(JoinPath(ts[1..])));
    } else {
      NodeCreateStep(s, id, JoinPath(ts), ts[0], None);
    }
  }

  /** A one-token `get` reads the token at the node itself. */
  lemma GetOne(s: Store, id: NodeId, t: string)
    requires Valid(s) && id in s.nodes && IsPlainToken(t)
    ensures Get(s, id, t) == Read(s, Some(id), t)
  {
    PlainTokenQuery(t);
  }

  /** One step of `get` on a query whose first token is `t` and whose remainder is `rest`. */
  lemma GetStep(s: Store, id: NodeId, e: string, t: string, rest: string)
    requires Valid(s) && id in s.nodes
    requires var q := ParseKey(e);
      !q.IsEmpty() && !q.callsRoot && q.tokenCount > 1 && q.firstToken == t && q.query == Some(rest)
    ensures NodeValid(s, id)
    ensures Get(s, id, e) == if t in s.nodes[id].nodes then Get(s, s.nodes[id].nodes[t], rest) else Step(s, Err(UnknownEntity))
  {
  }

  /** The first step of a walk along the path without its last token. */
  lemma LookupInit(s: Store, id: NodeId, ts: seq<string>)
    requires Valid(s) && id in s.nodes && |ts| > 1
    ensures NodeValid(s, id)
    ensures Lookup(s, id, Init(ts)) ==
      if ts[0] in s.nodes[id].nodes then Lookup(s, s.nodes[id].nodes[ts[0]], Init(ts[1..])) else None
    ensures Last(ts[1..]) == Last(ts)
  {
    assert Init(ts)[0] == ts[0];
    assert Init(ts)[1..] == Init(ts[1..]);
  }

  /** How a plain path of several tokens parses: its head and the remainder after it. */
  lemma PlainPathHead(ts: seq<string>)
    requires IsPlainPath(ts) && |ts| > 1
    ensures IsPlainPath(ts[1..])
    ensures var q := ParseKey(JoinPath(ts));
      !q.IsEmpty() && !q.callsRoot && q.tokenCount > 1 && q.firstToken == ts[0] && q.query == Some(JoinPath(ts[1..]))
  {
    PlainPathParses(ts);
    PlainPathTail(ts);
  }

  /** `get(p)` walks to the node in front of the last token and reads the last token there. */
  lemma {:induction false} GetWalks(s: Store, id: NodeId, ts: seq<string>)
    requires Valid(s) && id in s.nodes && IsPlainPath(ts)
    ensures Get(s, id, JoinPath(ts)) == Read(s, Lookup(s, id, Init(ts)), Last(ts))
    decreases |ts|
  {
    if |ts| == 1 {
      assert Init(ts) == [];
      PlainTokenQuery(ts[0]);
      GetOne(s, id, ts[0]);
    } else {
      PlainPathHead(ts);
      GetStep(s, id, JoinPath(ts), ts[0], JoinPath(ts[1..]));
      LookupInit(s, id, ts);
      if ts[0] in s.nodes[id].nodes {
        GetWalks(s, s.nodes[id].nodes[ts[0]], ts[1..]);
      }
    }
  }

  /** The node path `has` and `set` rebuild from a plain path is the path without its last token. */
  lemma PlainNodePath(ts: seq<string>)
    requires IsPlainPath(ts) && |ts| > 1
    ensures ParseKey(JoinPath(ts)).tokenCount > 1
    ensures NodePath(ParseKey(JoinPath(ts))) == JoinPath(Init(ts))
    ensures ParseKey(JoinPath(ts)).lastToken == Last(ts)
  {
    PlainPathParses(ts);
    if |ts| == 2 {
      assert Init(ts) == [ts[0]];
    }
  }

  /** A plain token is a one-token query naming itself. */
  lemma PlainTokenQuery(t: string)
    requires IsPlainToken(t)
    ensures JoinPath([t]) == t
    ensures var q := ParseKey(t);
      !q.IsEmpty() && !q.callsRoot && q.tokenCount == 1 && q.firstToken == t && q.lastToken == t
  {
    PlainPathParses([t]);
  }

  /**
   * `has(p)` is membership of the last token in the values of the node in
   * front of it; a missing node is a call on null, not `false`. It changes nothing.
   */
  lemma HasWalks(s: Store, id: NodeId, ts: seq<string>)
    requires Valid(s) && id in s.nodes && IsPlainPath(ts)
    ensures Has(s, id, JoinPath(ts)) == Step(s, Contains(s, Lookup(s, id, Init(ts)), Last(ts)))
  {
    if |ts| == 1 {
      assert Init(ts) == [];
      PlainTokenQuery(ts[0]);
    } else {
      PlainPathTail(ts);
      PlainNodePath(ts);
      PlainPathParses(ts);
      NodeFinds(s, id, Init(ts));
      var n := Lookup(s, id, Init(ts));
      HasStep(s, id, JoinPath(ts), JoinPath(Init(ts)), Last(ts));
      if n.Some? {
        PlainTokenQuery(Last(ts));
      }
    }
  }

  /** One step of `has` on a query with node path `path` and last token `last`. */
  lemma HasStep(s: Store, id: NodeId, e: string, path: string, last: string)
    requires Valid(s) && id in s.nodes
    requires var q := ParseKey(e);
      !q.IsEmpty() && !q.callsRoot && q.tokenCount > 1 && NodePath(q) == path && q.lastToken == last
    ensures var n := Node(s, id, path, false);
      Has(s, id, e) ==
        if n.result.Err? then Step(s, Err(n.result.error))
        else if n.result.value.None? then Step(s, Err(NullReceiver))
        else Has(s, n.result.value.value, last)
  {
  }

  /** The node path materialised by `node(p, true)`, or the node itself for an empty path. */
  function Materialise(s: Store, id: NodeId, ts: seq<string>): Step<Option<NodeId>>
    requires Valid(s) && id in s.nodes
  {
    if ts == [] then Step(s, Ok(Some(id))) else Node(s, id, JoinPath(ts), true)
  }

  /** Storing `v` under `t` at node `c`, covered by the node's declaration if it has one. */
  function Store1(s: Store, c: NodeId, t: string, v: Value): Store
    requires Valid(s) && c in s.nodes
  {
    var cv := Cover(s, c, t, v);
    EventsValid(s, cv.0.events);
    PutValue(cv.0, c, t, cv.1)
  }

  lemma SetOne(s: Store, id: NodeId, t: string, v: Value)
    requires Valid(s) && id in s.nodes && IsPlainToken(t)
    ensures Set(s, id, t, v) == Step(Store1(s, id, t, v), Ok(()))
  {
    PlainTokenQuery(t);
  }

  /** One step of `set` on a query with node path `path` and last token `last`. */
  lemma SetStep(s: Store, id: NodeId, e: string, path: string, last: string, v: Value)
    requires Valid(s) && id in s.nodes
    requires var q := ParseKey(e);
      !q.IsEmpty() && !q.callsRoot && q.tokenCount > 1 && NodePath(q) == path && q.lastToken == last
    ensures var n := Node(s, id, path, true);
      Set(s, id, e, v) ==
        if n.result.Err? then Step(n.store, Err(n.result.error))
        else if n.result.value.None? then Step(n.store, Err(NullReceiver))
        else Set(n.store, n.result.value.value, last, v)
  {
  }

  /**
   * `set(p, v)` on a plain path materialises the node path in front of the
   * last token, then covers `v` and stores it under the last token at that
   * node. It never fails.
   */
  lemma SetWalks(s: Store, id: NodeId, ts: seq<string>, v: Value)
    requires Valid(s) && id in s.nodes && IsPlainPath(ts)
    ensures var m := Materialise(s, id, Init(ts));
      && m.result.Ok? && m.result.value.Some?
      && var c := m.result.value.value;
      && Lookup(m.store, id, Init(ts)) == Some(c)
      && Set(s, id, JoinPath(ts), v) == Step(Store1(m.store, c, Last(ts), v), Ok(()))
  {
    if |ts| == 1 {
      assert Init(ts) == [];
      SetOne(s, id, ts[0], v);
    } else {
      PlainPathTail(ts);
      PlainNodePath(ts);
      PlainPathParses(ts);
      NodeCreates(s, id, Init(ts));
      SetStep(s, id, JoinPath(ts), JoinPath(Init(ts)), Last(ts), v);
      var m := Node(s, id, JoinPath(Init(ts)), true);
      SetOne(m.store, m.result.value.value, Last(ts), v);
    }
  }

  /** Storing under a key the node declares nothing for stores the value itself and fires SET_STAGE once. */
  lemma Store1Plain(s: Store, c: NodeId, t: string, v: Value)
    requires Valid(s) && c in s.nodes && t !in s.nodes[c].declarations
    ensures var u := Store1(s, c, t, v);
      && Valid(u) && Extends(s, u)
      && u.nodes[c].values == s.nodes[c].values[t := v]
      && u.events == s.events + Fired(s, c, SetStage, Some(t), v)
  {
  }

  /**
   * The last token of `ts` carries no declaration at the node the path in
   * front of it leads to, if that node exists yet.
   */
  predicate LastUndeclared(s: Store, id: NodeId, ts: seq<string>)
    requires Valid(s) && id in s.nodes && |ts| >= 1
  {
    var c := Lookup(s, id, Init(ts));
    c.Some? ==> Last(ts) !in s.nodes[c.value].declarations
  }

  /**
   * The round trip: after `set(p, v)` on a plain path whose last token is
   * not declared where it is stored, `get(p)` yields `v` (called first when
   * it is a closure) and `has(p)` is true.
   */
  lemma SetThenGet(s: Store, id: NodeId, ts: seq<string>, v: Value)
    requires Valid(s) && id in s.nodes && IsPlainPath(ts) && LastUndeclared(s, id, ts)
    ensures var r := Set(s, id, JoinPath(ts), v);
      && r.result == Ok(())
      && Get(r.store, id, JoinPath(ts)).result == Ok(Resolve(v))
      && Has(r.store, id, JoinPath(ts)).result == Ok(true)
  {
    SetWalks(s, id, ts, v);
    MaterialiseUndeclared(s, id, ts);
    var m := Materialise(s, id, Init(ts));
    var c := m.result.value.value;
    StoreThenRead(m.store, id, ts, c, v);
  }

  /**
   * Materialising the node path in front of an undeclared last token reaches
   * a node that declares nothing for it: either the node that was there, or
   * a new one without declarations.
   */
  lemma MaterialiseUndeclared(s: Store, id: NodeId, ts: seq<string>)
    requires Valid(s) && id in s.nodes && IsPlainPath(ts) && LastUndeclared(s, id, ts)
    ensures var m := Materialise(s, id, Init(ts));
      && Valid(m.store) && Extends(s, m.store)
      && m.result.Ok? && m.result.value.Some? && m.result.value.value in m.store.nodes
      && Last(ts) !in m.store.nodes[m.result.value.value].declarations
  {
    if |ts| > 1 {
      PlainPathTail(ts);
      NodeCreates(s, id, Init(ts));
    }
  }

  /** Storing at the node the walk reaches makes the value visible to `get` and `has`. */
  lemma StoreThenRead(m: Store, id: NodeId, ts: seq<string>, c: NodeId, v: Value)
    requires Valid(m) && id in m.nodes && IsPlainPath(ts) && c in m.nodes
    requires Lookup(m, id, Init(ts)) == Some(c) && Last(ts) !in m.nodes[c].declarations
    ensures var u := Store1(m, c, Last(ts), v);
      && Get(u, id, JoinPath(ts)).result == Ok(Resolve(v))
      && Has(u, id, JoinPath(ts)).result == Ok(true)
  {
    Store1Plain(m, c, Last(ts), v);
    var u := Store1(m, c, Last(ts), v);
    LookupExtends(m, u, id, Init(ts));
    ReadBack(u, id, ts, c, v);
  }

  /** A value found at the end of the walk is what `get` yields and what `has` reports. */
  lemma ReadBack(u: Store, id: NodeId, ts: seq<string>, c: NodeId, v: Value)
    requires Valid(u) && id in u.nodes && IsPlainPath(ts)
    requires Lookup(u, id, Init(ts)) == Some(c)
    requires Last(ts) in u.nodes[c].values && u.nodes[c].values[Last(ts)] == v
    ensures Get(u, id, JoinPath(ts)).result == Ok(Resolve(v))
    ensures Has(u, id, JoinPath(ts)).result == Ok(true)
  {
    GetWalks(u, id, ts);
    HasWalks(u, id, ts);
  }
}
