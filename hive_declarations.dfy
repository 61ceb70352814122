/**
 * `DeclarativeHiveNode`: a per-node map from token to callback, filled by
 * `declare` and consulted by `cover` when a value is stored under the token.
 */
module HiveDeclarations {
  import opened Wrappers
  import opened HiveTypes
  import opened HiveQuery
  import opened HiveStore
  import opened HiveProperties

  /** One step of `declare` on a one-token query with token `t`. */
  lemma DeclareOneStep(s: Store, id: NodeId, e: string, t: string, callback: Callback)
    requires Valid(s) && id in s.nodes && s.nodes[id].declarative
    requires var q := ParseKey(e); !q.callsRoot && q.tokenCount == 1 && q.lastToken == t
    ensures var n := s.nodes[id];
      Declare(s, id, e, callback) == Step(s.(nodes := s.nodes[id := n.(declarations := n.declarations[t := callback])]), Ok(()))
  {
  }

  /** One step of `declare` on a query with node path `path` and last token `last`. */
  lemma DeclareWalkStep(s: Store, id: NodeId, e: string, path: string, last: string, callback: Callback)
    requires Valid(s) && id in s.nodes && s.nodes[id].declarative
    requires var q := ParseKey(e);
      !q.callsRoot && q.tokenCount > 1 && NodePath(q) == path && q.lastToken == last
    ensures var n := Node(s, id, path, true);
      Declare(s, id, e, callback) ==
        if n.result.Err? then Step(n.store, Err(n.result.error))
        else if n.result.value.None? || !n.store.nodes[n.result.value.value].declarative then Step(n.store, Err(HiveError))
        else Declare(n.store, n.result.value.value, last, callback)
  {
  }

  /**
   * `declare(t, cb)` on one token stores `cb` under `t` in this node's
   * declarations, replacing an earlier one, and changes nothing else.
   */
  lemma DeclareOne(s: Store, id: NodeId, t: string, callback: Callback)
    requires Valid(s) && id in s.nodes && s.nodes[id].declarative && IsPlainToken(t)
    ensures var r := Declare(s, id, t, callback);
      && r.result == Ok(())
      && r.store.nodes.Keys == s.nodes.Keys
      && r.store.nodes[id].declarations == s.nodes[id].declarations[t := callback]
      && r.store.nodes[id].values == s.nodes[id].values
      && r.store.nodes[id].nodes == s.nodes[id].nodes
      && (forall other :: other in s.nodes && other != id ==> r.store.nodes[other] == s.nodes[other])
      && r.store.events == s.events && r.store.queues == s.queues
  {
    PlainTokenQuery(t);
    DeclareOneStep(s, id, t, t, callback);
  }

  /** Every node below a node is of the same class: `node()` builds children as `new $origin`. */
  lemma {:induction false} LookupDeclarative(s: Store, id: NodeId, ts: seq<string>)
    requires Valid(s) && id in s.nodes && Lookup(s, id, ts).Some?
    ensures s.nodes[Lookup(s, id, ts).value].declarative == s.nodes[id].declarative
    decreases |ts|
  {
    if ts != [] {
      assert NodeValid(s, id);
      var c := s.nodes[id].nodes[ts[0]];
      assert ChildValid(s, id, ts[0], c);
      LookupDeclarative(s, c, ts[1..]);
    }
  }

  /**
   * `declare(p, cb)` on a plain path of several tokens materialises the node
   * path in front of the last token, which is declaration-aware like the
   * node it starts from, and declares the last token there.
   */
  lemma DeclareWalk(s: Store, id: NodeId, ts: seq<string>, callback: Callback)
    requires Valid(s) && id in s.nodes && s.nodes[id].declarative && IsPlainPath(ts) && |ts| > 1
    ensures var m := Node(s, id, JoinPath(Init(ts)), true);
      && m.result.Ok? && m.result.value.Some?
      && var c := m.result.value.value;
      && var r := Declare(s, id, JoinPath(ts), callback);
      && r.result == Ok(())
      && Lookup(r.store, id, Init(ts)) == Some(c)
      && r.store.nodes[c].declarations == m.store.nodes[c].declarations[Last(ts) := callback]
      && r.store.nodes[c].values == m.store.nodes[c].values
  {
    PlainPathTail(ts);
    PlainNodePath(ts);
    PlainPathParses(ts);
    NodeCreates(s, id, Init(ts));
    var m := Node(s, id, JoinPath(Init(ts)), true);
    var c := m.result.value.value;
    assert Keeps(s.nodes[id], m.store.nodes[id]);
    LookupDeclarative(m.store, id, Init(ts));
    DeclareWalkStep(s, id, JoinPath(ts), JoinPath(Init(ts)), Last(ts), callback);
    assert IsPlainToken(Last(ts));
    DeclareOne(m.store, c, Last(ts), callback);
    var r := Declare(m.store, c, Last(ts), callback);
    LookupExtends(m.store, r.store, id, Init(ts));
  }

  /**
   * Storing under a declared token on a declaration-aware node stores what
   * the callback returns for the incoming value; DECLARATION_STAGE and then
   * SET_STAGE fire with that result.
   */
  lemma SetDeclared(s: Store, id: NodeId, t: string, v: Value)
    requires Valid(s) && id in s.nodes && IsPlainToken(t)
    requires s.nodes[id].declarative && t in s.nodes[id].declarations
    ensures var r := Set(s, id, t, v);
      var w := s.nodes[id].declarations[t](v);
      && r.result == Ok(())
      && r.store.nodes[id].values == s.nodes[id].values[t := w]
      && r.store.events == s.events + Fired(s, id, DeclarationStage, Some(t), w) + Fired(s, id, SetStage, Some(t), w)
  {
    SetOne(s, id, t, v);
  }

  /**
   * Without a declaration for the token, `cover` is the plain one: the value
   * is stored unchanged and only SET_STAGE fires.
   */
  lemma SetUndeclared(s: Store, id: NodeId, t: string, v: Value)
    requires Valid(s) && id in s.nodes && IsPlainToken(t)
    requires !s.nodes[id].declarative || t !in s.nodes[id].declarations
    ensures var r := Set(s, id, t, v);
      && r.result == Ok(())
      && r.store.nodes[id].values == s.nodes[id].values[t := v]
      && r.store.events == s.events + Fired(s, id, SetStage, Some(t), v)
  {
    SetOne(s, id, t, v);
  }

  /** After `declare(t, cb)` and `set(t, v)`, `get(t)` yields what `cb` made of `v`. */
  lemma DeclareThenSet(s: Store, id: NodeId, t: string, callback: Callback, v: Value)
    requires Valid(s) && id in s.nodes && s.nodes[id].declarative && IsPlainToken(t)
    ensures var d := Declare(s, id, t, callback);
      var r := Set(d.store, id, t, v);
      && d.result == Ok(()) && r.result == Ok(())
      && Get(r.store, id, t).result == Ok(Resolve(callback(v)))
  {
    DeclareOne(s, id, t, callback);
    var d := Declare(s, id, t, callback);
    SetDeclared(d.store, id, t, v);
    var r := Set(d.store, id, t, v);
    GetOne(r.store, id, t);
  }
}
