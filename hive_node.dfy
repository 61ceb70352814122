/**
 * `HiveNode` and `DeclarativeHiveNode` as objects: one `Hive` holds every
 * node object of a program run (their fields, keyed by node id), the
 * observer queues and the log of notifications. Each method does what the
 * PHP method does, step by step and in place, and is proved to leave
 * exactly the store, and return exactly the result, that the matching
 * function of `HiveStore` describes.
 */
module HiveNode {
  import opened Wrappers
  import opened HiveTypes
  import opened HiveQuery
  import opened HiveIdentity
  import opened HiveStore

  class Hive {
    var nodes: map<NodeId, NodeState>
    var queues: seq<nat>
    var events: seq<Event>
    var next: NodeId

    /** The fields as one store value. */
    function State(): Store
      reads this
    {
      Store(nodes, queues, events, next)
    }

    ghost predicate Inv()
      reads this
    {
      HiveStore.Valid(State())
    }

    /** No node objects and no observer queues yet. */
    constructor ()
      ensures State() == Store(map[], [], [], 0)
      ensures Inv()
    {
      nodes := map[];
      queues := [];
      events := [];
      next := 0;
    }

    /** `new ObserverQueue()`: a queue without observers. */
    method NewQueue() returns (q: QueueId)
      requires Inv()
      modifies this
      ensures Inv()
      ensures q == |old(queues)| && queues == old(queues) + [0]
      ensures nodes == old(nodes) && events == old(events) && next == old(next)
    {
      q := |queues|;
      queues := queues + [0];
      assert forall id :: id in nodes ==> NodeValid(old(State()), id) ==> NodeValid(State(), id) by {
        forall id | id in nodes && NodeValid(old(State()), id) ensures NodeValid(State(), id) {
          var n := nodes[id];
          forall k | k in n.nodes ensures ChildValid(State(), id, k, n.nodes[k]) {
            assert ChildValid(old(State()), id, k, n.nodes[k]);
          }
        }
      }
    }

    /**
     * `new HiveNode()` or `new DeclarativeHiveNode()` without an identity:
     * a root, with the given observer queue or a fresh one.
     */
    method NewRoot(declarative: bool, observers: Option<QueueId>) returns (root: NodeId)
      requires Inv() && (observers.Some? ==> observers.value < |queues|)
      modifies this
      ensures Inv()
      ensures root == old(next) && root !in old(nodes) && next == old(next) + 1 && events == old(events)
      ensures observers.Some? ==> queues == old(queues)
      ensures observers.None? ==> queues == old(queues) + [0]
      ensures nodes == old(nodes)[root := NodeState(None, None, map[], map[],
                                                   if observers.Some? then observers.value else |old(queues)|,
                                                   declarative, map[])]
    {
      var q: QueueId;
      if observers.Some? {
        q := observers.value;
      } else {
        q := NewQueue();
      }
      root := next;
      var n := NodeState(None, None, map[], map[], q, declarative, map[]);
      AddRootValid(State(), n);
      nodes := nodes[root := n];
      next := next + 1;
    }

    /** `attach($observer)`: one more observer on the queue this node notifies through. */
    method Attach(self: NodeId)
      requires Inv() && self in nodes
      modifies this
      ensures Inv()
      ensures var q := old(nodes)[self].queue;
        queues == old(queues)[q := old(queues)[q] + 1]
      ensures nodes == old(nodes) && events == old(events) && next == old(next)
    {
      assert NodeValid(State(), self);
      var q := nodes[self].queue;
      ghost var s := State();
      queues := queues[q := queues[q] + 1];
      forall id | id in nodes ensures id < next && NodeValid(State(), id) {
        assert NodeValid(s, id);
        var n := nodes[id];
        forall k | k in n.nodes ensures ChildValid(State(), id, k, n.nodes[k]) {
          assert ChildValid(s, id, k, n.nodes[k]);
        }
      }
    }

    /** `withObservers($observers)`: the node now notifies through the given queue. */
    method WithObservers(self: NodeId, q: QueueId)
      requires Inv() && self in nodes && q < |queues|
      modifies this
      ensures Inv()
      ensures nodes == old(nodes)[self := old(nodes)[self].(queue := q)]
      ensures queues == old(queues) && events == old(events) && next == old(next)
    {
      ghost var s := State();
      nodes := nodes[self := nodes[self].(queue := q)];
      forall id | id in nodes ensures id < next && NodeValid(State(), id) {
        assert NodeValid(s, id);
        var n := nodes[id];
        forall k | k in n.nodes ensures ChildValid(State(), id, k, n.nodes[k]) {
          assert ChildValid(s, id, k, n.nodes[k]);
        }
      }
    }

    // -------------------------------------------------------------------------
    // Parent links
    // -------------------------------------------------------------------------

    /** `getRoot`: climbs parent links until a node has none. */
    method GetRoot(self: NodeId) returns (root: NodeId)
      requires Inv() && self in nodes
      ensures root == Root(State(), self)
      ensures root in nodes && nodes[root].parent.None? && root <= self
    {
      root := self;
      while nodes[root].parent.Some?
        invariant root in nodes && root <= self
        invariant Root(State(), root) == Root(State(), self)
        decreases root
      {
        assert NodeValid(State(), root);
        root := nodes[root].parent.value;
      }
    }

    /** `isRoot($node)`: whether `getRoot()` is `$node`, or this node itself when none is given. */
    method IsRoot(self: NodeId, node: Option<NodeId>) returns (b: bool)
      requires Inv() && self in nodes
      ensures b == HiveStore.IsRoot(State(), self, node)
      ensures node.None? ==> (b <==> nodes[self].parent.None?)
    {
      var root := GetRoot(self);
      b := root == if node.Some? then node.value else self;
    }

    /**
     * `marshalCurrentPath($token)`: collects the names from this node up to
     * the root, top first, in front of the token, drops the empty ones and
     * joins them; an empty result is the TypeError of returning null.
     */
    method MarshalCurrentPath(self: NodeId, token: Option<string>) returns (r: Result<string, Error>)
      requires Inv() && self in nodes
      ensures r == HiveStore.MarshalCurrentPath(State(), self, token)
    {
      var container := self;
      var stack := [token];
      while nodes[container].parent.Some?
        invariant container in nodes
        invariant Ancestry(State(), container) + stack == Ancestry(State(), self) + [token]
        decreases container
      {
        assert NodeValid(State(), container);
        var parent := nodes[container].parent.value;
        assert Ancestry(State(), container) == Ancestry(State(), parent) + [nodes[container].name];
        stack := [nodes[container].name] + stack;
        container := parent;
      }
      assert Ancestry(State(), container) == [];
      assert stack == Ancestry(State(), self) + [token];
      var path := JoinPath(Present(stack));
      if PhpEmpty(path) {
        r := Err(TypeMismatch);
      } else {
        r := Ok(path);
      }
    }

    /** `getPath`. */
    method GetPath(self: NodeId) returns (r: Result<string, Error>)
      requires Inv() && self in nodes
      ensures r == HiveStore.MarshalCurrentPath(State(), self, None)
    {
      r := MarshalCurrentPath(self, None);
    }

    // -------------------------------------------------------------------------
    // Notification and creation
    // -------------------------------------------------------------------------

    /** `update($stage, …)`: one event when the node's queue has observers. */
    method Update(self: NodeId, stage: Stage, token: Option<string>, value: Value)
      requires Inv() && self in nodes
      modifies this
      ensures Inv()
      ensures State() == Notify(old(State()), self, stage, token, value)
    {
      assert NodeValid(State(), self);
      EventsValid(State(), events + Fired(State(), self, stage, token, value));
      if queues[nodes[self].queue] > 0 {
        events := events + [Event(stage, self, token, value)];
      }
    }

    /**
     * `cover($token, $value)`: on a declaration-aware node with a
     * declaration for the token, the callback's result replaces the value and
     * DECLARATION_STAGE fires; then SET_STAGE fires.
     */
    method Cover(self: NodeId, token: string, value: Value) returns (v: Value)
      requires Inv() && self in nodes
      modifies this
      ensures Inv()
      ensures (State(), v) == HiveStore.Cover(old(State()), self, token, value)
    {
      var n := nodes[self];
      v := value;
      if n.declarative && token in n.declarations {
        v := n.declarations[token](value);
        Update(self, DeclarationStage, Some(token), v);
      }
      Update(self, SetStage, Some(token), v);
    }

    /** `marshalNodeInstance($origin, $token)`: a new, unlinked node of the origin's class and queue. */
    method MarshalNodeInstance(origin: NodeId, token: string) returns (r: Result<NodeId, Error>)
      requires Inv() && origin in nodes
      modifies this
      ensures Inv()
      ensures var step := HiveStore.MarshalNodeInstance(old(State()), origin, token);
        State() == step.store && r == step.result
    {
      var identity := NewIdentity(origin, token, None);
      if identity.Err? {
        return Err(identity.error);
      }
      var o := nodes[origin];
      var child := NodeState(Some(GetParentNode(identity.value)), Some(GetName(identity.value)),
                             map[], map[], o.queue, o.declarative, map[]);
      AddValid(State(), child);
      r := Ok(next);
      nodes := nodes[next := child];
      next := next + 1;
    }

    // -------------------------------------------------------------------------
    // The node operations
    // -------------------------------------------------------------------------

    /** `node($entity, $createIfNotExists)`. */
    method Node(self: NodeId, entity: string, create: bool) returns (r: Result<Option<NodeId>, Error>)
      requires Inv() && self in nodes
      modifies this
      ensures Inv()
      ensures var step := HiveStore.Node(old(State()), self, entity, create);
        State() == step.store && r == step.result
      decreases |entity|, 2
    {
      ParseKeyShrinks(entity);
      r := NodeParsed(self, ParseKey(entity), create);
    }

    /** The body of `node` once the key is parsed. */
    method NodeParsed(self: NodeId, q: Query, create: bool) returns (r: Result<Option<NodeId>, Error>)
      requires Inv() && self in nodes && Parsed(q)
      modifies this
      ensures Inv()
      ensures var step := HiveStore.NodeQuery(old(State()), self, q, create);
        State() == step.store && r == step.result
      decreases |q.fullQuery|, 1
    {
      QueryShrinks(q);
      if q.IsEmpty() {
        return Err(UnknownEntity);
      }
      if q.callsRoot {
        var root := GetRoot(self);
        r := Node(root, q.rootlessQuery, false);
        return;
      }
      r := NodeChild(self, q, create);
    }

    /** `node` on a query that neither is empty nor calls the root: the first token, created on demand, then the rest. */
    method NodeChild(self: NodeId, q: Query, create: bool) returns (r: Result<Option<NodeId>, Error>)
      requires Inv() && self in nodes && Parsed(q) && !q.IsEmpty() && !q.callsRoot
      modifies this
      ensures Inv()
      ensures var step := HiveStore.NodeQuery(old(State()), self, q, create);
        State() == step.store && r == step.result
      decreases |q.fullQuery|, 0
    {
      QueryShrinks(q);
      ghost var s := State();
      ghost var t := if create && q.firstToken !in s.nodes[self].nodes then HiveStore.CreateChild(s, self, q.firstToken) else Step(s, Ok(()));
      var c: Result<(), Error> := Ok(());
      if create && q.firstToken !in nodes[self].nodes {
        c := CreateChild(self, q.firstToken);
      }
      assert State() == t.store && c == t.result;
      if c.Err? {
        return Err(c.error);
      }
      if q.firstToken !in nodes[self].nodes {
        return Ok(None);
      }
      assert NodeValid(State(), self);
      var child := nodes[self].nodes[q.firstToken];
      if q.query.None? {
        return Ok(Some(child));
      }
      r := Node(child, q.query.value, create);
    }

    /** Line 200 of `node()`: a new child for `token`, linked under that raw key. */
    method CreateChild(self: NodeId, token: string) returns (r: Result<(), Error>)
      requires Inv() && self in nodes && token !in nodes[self].nodes
      modifies this
      ensures Inv()
      ensures var step := HiveStore.CreateChild(old(State()), self, token);
        State() == step.store && r == step.result
    {
      var c := MarshalNodeInstance(self, token);
      if c.Err? {
        return Err(c.error);
      }
      var n := nodes[self];
      LinkValid(State(), self, token, c.value);
      nodes := nodes[self := n.(nodes := n.nodes[token := c.value])];
      r := Ok(());
    }

    /** `get($entity)`. */
    method Get(self: NodeId, entity: string) returns (r: Result<Value, Error>)
      requires Inv() && self in nodes
      modifies this
      ensures Inv()
      ensures var step := HiveStore.Get(old(State()), self, entity);
        State() == step.store && r == step.result
      decreases |entity|
    {
      ParseKeyShrinks(entity);
      var q := ParseKey(entity);
      QueryShrinks(q);
      if q.IsEmpty() {
        return Err(UnknownEntity);
      }
      if q.callsRoot {
        var root := GetRoot(self);
        r := Get(root, q.rootlessQuery);
        return;
      }
      if q.tokenCount > 1 && q.firstToken in nodes[self].nodes {
        assert NodeValid(State(), self);
        r := Get(nodes[self].nodes[q.firstToken], q.query.value);
        return;
      }
      if q.tokenCount > 1 {
        return Err(UnknownEntity);
      }
      if q.firstToken !in nodes[self].values {
        return Err(UnknownEntity);
      }
      var v := Resolve(nodes[self].values[q.firstToken]);
      Update(self, GetStage, None, v);
      r := Ok(v);
    }

    /** `has($entity)`. */
    method Has(self: NodeId, entity: string) returns (r: Result<bool, Error>)
      requires Inv() && self in nodes
      modifies this
      ensures Inv()
      ensures var step := HiveStore.Has(old(State()), self, entity);
        State() == step.store && r == step.result
      decreases |entity|
    {
      ParseKeyShrinks(entity);
      var q := ParseKey(entity);
      QueryShrinks(q);
      if q.IsEmpty() {
        return Err(UnknownEntity);
      }
      if q.callsRoot {
        var root := GetRoot(self);
        r := Has(root, q.rootlessQuery);
        return;
      }
      if q.tokenCount > 1 {
        var n := Node(self, NodePath(q), false);
        if n.Err? {
          return Err(n.error);
        }
        if n.value.None? {
          return Err(NullReceiver);
        }
        r := Has(n.value.value, q.lastToken);
        return;
      }
      r := Ok(q.firstToken in nodes[self].values);
    }

    /** `set($entity, $value)`. */
    method Set(self: NodeId, entity: string, value: Value) returns (r: Result<(), Error>)
      requires Inv() && self in nodes
      modifies this
      ensures Inv()
      ensures var step := HiveStore.Set(old(State()), self, entity, value);
        State() == step.store && r == step.result
      decreases |entity|
    {
      ParseKeyShrinks(entity);
      var q := ParseKey(entity);
      QueryShrinks(q);
      ghost var s := State();
      assert HiveStore.Set(s, self, entity, value) == SetQuery(s, self, q, value);
      if q.IsEmpty() {
        return Err(UnknownEntity);
      }
      if q.callsRoot {
        var root := GetRoot(self);
        r := Set(root, q.rootlessQuery, value);
        return;
      }
      if q.tokenCount > 1 {
        var n := Node(self, NodePath(q), true);
        if n.Err? {
          return Err(n.error);
        }
        if n.value.None? {
          return Err(NullReceiver);
        }
        r := Set(n.value.value, q.lastToken, value);
        return;
      }
      var v := Cover(self, q.firstToken, value);
      StoreValue(self, q.firstToken, v);
      r := Ok(());
    }

    /** The assignment `$this->values[$token] = …`. */
    method StoreValue(self: NodeId, token: string, value: Value)
      requires Inv() && self in nodes
      modifies this
      ensures Inv()
      ensures State() == PutValue(old(State()), self, token, value)
    {
      var n := nodes[self];
      ReplaceValid(State(), self, n.(values := n.values[token := value]));
      nodes := nodes[self := n.(values := n.values[token := value])];
    }

    /** `declare($entity, $callback)` of a declaration-aware node. */
    method Declare(self: NodeId, entity: string, callback: Callback) returns (r: Result<(), Error>)
      requires Inv() && self in nodes && nodes[self].declarative
      modifies this
      ensures Inv()
      ensures var step := HiveStore.Declare(old(State()), self, entity, callback);
        State() == step.store && r == step.result
      decreases |entity|
    {
      ParseKeyShrinks(entity);
      var q := ParseKey(entity);
      QueryShrinks(q);
      ghost var s := State();
      assert HiveStore.Declare(s, self, entity, callback) == DeclareQuery(s, self, q, callback);
      if q.callsRoot {
        return Err(HiveError);
      }
      if q.tokenCount > 1 {
        var n := Node(self, NodePath(q), true);
        if n.Err? {
          return Err(n.error);
        }
        if n.value.None? || !nodes[n.value.value].declarative {
          return Err(HiveError);
        }
        r := Declare(n.value.value, q.lastToken, callback);
        return;
      }
      StoreDeclaration(self, q.lastToken, callback);
      r := Ok(());
    }

    /** The assignment `$this->declarations[$token] = $callback`. */
    method StoreDeclaration(self: NodeId, token: string, callback: Callback)
      requires Inv() && self in nodes
      modifies this
      ensures Inv()
      ensures var n := old(nodes)[self];
        nodes == old(nodes)[self := n.(declarations := n.declarations[token := callback])]
      ensures queues == old(queues) && events == old(events) && next == old(next)
    {
      var n := nodes[self];
      ReplaceValid(State(), self, n.(declarations := n.declarations[token := callback]));
      nodes := nodes[self := n.(declarations := n.declarations[token := callback])];
    }
  }
}
