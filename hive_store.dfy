/**
 * The state of a tree of `HiveNode` objects and the meaning of every node
 * operation on it.
 *
 * The object graph is an arena: every node object has an id, and a node's
 * `$nodes` map holds child ids. A child is always created after its parent,
 * so its id is larger, and walking parent links always reaches a root.
 * Observer queues are shared objects too; a queue is represented by the
 * number of observers attached to it, and every notification that reaches
 * observers is appended to one event log.
 *
 * Each operation is a function from a store to a `Step`: the store after the
 * call and either the result or the exception raised. State changed before
 * an exception (a node created on the way) stays changed, as in PHP.
 */
module HiveStore {
  import opened Wrappers
  import opened HiveTypes
  import opened HiveQuery
  import opened HiveIdentity

  /** The fields of one node object. */
  datatype NodeState = NodeState(
    parent: Option<NodeId>,
    name: Option<string>,
    nodes: map<string, NodeId>,
    values: map<string, Value>,
    queue: QueueId,
    declarative: bool,
    declarations: map<string, Callback>)

  datatype Store = Store(nodes: map<NodeId, NodeState>, queues: seq<nat>, events: seq<Event>, next: NodeId)

  /** The store after an operation, and what the operation returned or raised. */
  datatype Step<T> = Step(store: Store, result: Result<T, Error>)

  /**
   * What holds of every node in every reachable store: ids are below `next`;
   * a node has a parent exactly when it has a name; a parent is an older
   * node; names are never empty; and a child linked under key `k` has this
   * node as parent, the trimmed `k` as name, and this node's class.
   */
  predicate Valid(s: Store) {
    forall id :: id in s.nodes ==> id < s.next && NodeValid(s, id)
  }

  predicate NodeValid(s: Store, id: NodeId)
    requires id in s.nodes
  {
    var n := s.nodes[id];
    && n.queue < |s.queues|
    && (n.parent.None? <==> n.name.None?)
    && (n.parent.Some? ==> n.parent.value in s.nodes && n.parent.value < id)
    && (n.name.Some? ==> !PhpEmpty(n.name.value))
    && (forall k :: k in n.nodes ==> ChildValid(s, id, k, n.nodes[k]))
  }

  predicate ChildValid(s: Store, id: NodeId, k: string, c: NodeId)
    requires id in s.nodes
  {
    && c in s.nodes
    && s.nodes[c].parent == Some(id)
    && s.nodes[c].name == Some(Trim(k, Whitespace))
    && s.nodes[c].declarative == s.nodes[id].declarative
  }

  /**
   * What no operation undoes: nodes are never removed, re-parented, renamed,
   * moved to another queue or to another class; a child link, once made,
   * keeps pointing at the same node; events are only appended.
   */
  ghost predicate Extends(s: Store, t: Store) {
    && s.queues == t.queues
    && s.next <= t.next
    && s.events <= t.events
    && forall id :: id in s.nodes ==> id in t.nodes && Keeps(s.nodes[id], t.nodes[id])
  }

  predicate Keeps(a: NodeState, b: NodeState) {
    && a.parent == b.parent && a.name == b.name && a.queue == b.queue && a.declarative == b.declarative
    && forall k :: k in a.nodes ==> k in b.nodes && b.nodes[k] == a.nodes[k]
  }

  /** Declarations are left alone: old nodes keep theirs and new nodes have none. */
  ghost predicate KeepsDeclarations(s: Store, t: Store) {
    forall id :: id in t.nodes ==> t.nodes[id].declarations == if id in s.nodes then s.nodes[id].declarations else map[]
  }

  lemma ExtendsTransitive(s: Store, t: Store, u: Store)
    requires Extends(s, t) && Extends(t, u)
    ensures Extends(s, u)
  {
  }

  lemma KeepsDeclarationsTransitive(s: Store, t: Store, u: Store)
    requires Extends(s, t) && KeepsDeclarations(s, t) && KeepsDeclarations(t, u)
    ensures KeepsDeclarations(s, u)
  {
  }

  // ---------------------------------------------------------------------------
  // Parent links
  // ---------------------------------------------------------------------------

  /** `getRoot`: the parentless node reached by following parent links. */
  function Root(s: Store, id: NodeId): (r: NodeId)
    requires Valid(s) && id in s.nodes
    ensures r in s.nodes && s.nodes[r].parent.None? && r <= id
    ensures s.nodes[id].parent.Some? ==> r == Root(s, s.nodes[id].parent.value)
    decreases id
  {
    match s.nodes[id].parent
    case None => id
    case Some(p) => Root(s, p)
  }

  /** `isRoot($node)`: whether `getRoot()` is `$node`, or this node itself when none is given. */
  function IsRoot(s: Store, id: NodeId, node: Option<NodeId>): (r: bool)
    requires Valid(s) && id in s.nodes
    ensures node.None? ==> (r <==> s.nodes[id].parent.None?)
    ensures r && node.Some? ==> node.value in s.nodes && s.nodes[node.value].parent.None? && node.value <= id
  {
    Root(s, id) == if node.Some? then node.value else id
  }

  /** `hasParent`. */
  function HasParent(s: Store, id: NodeId): (r: bool)
    requires Valid(s) && id in s.nodes
    ensures r <==> !IsRoot(s, id, None)
  {
    s.nodes[id].parent.Some?
  }

  /** `isParent($node)`: the parent link is exactly `$node`. */
  function IsParent(s: Store, id: NodeId, node: NodeId): (r: bool)
    requires Valid(s) && id in s.nodes
    ensures r ==> node in s.nodes && node < id && Root(s, node) == Root(s, id)
  {
    s.nodes[id].parent == Some(node)
  }

  /** `getParent`: an older node of the same tree, or none for a root. */
  function GetParent(s: Store, id: NodeId): (r: Option<NodeId>)
    requires Valid(s) && id in s.nodes
    ensures r.None? <==> IsRoot(s, id, None)
    ensures r.Some? ==> r.value in s.nodes && r.value < id && Root(s, r.value) == Root(s, id)
  {
    s.nodes[id].parent
  }

  /** The names on the way from the root down to `id`, root excluded. */
  function PathNames(s: Store, id: NodeId): (r: seq<string>)
    requires Valid(s) && id in s.nodes
    ensures |r| == 0 <==> s.nodes[id].parent.None?
    ensures forall i :: 0 <= i < |r| ==> !PhpEmpty(r[i])
    decreases id
  {
    match s.nodes[id].parent
    case None => []
    case Some(p) => PathNames(s, p) + [s.nodes[id].name.value]
  }

  /** The stack `marshalCurrentPath` builds: a name per node below the root, top first. */
  function Ancestry(s: Store, id: NodeId): (r: seq<Option<string>>)
    requires Valid(s) && id in s.nodes
    ensures |r| == |PathNames(s, id)|
    ensures forall i :: 0 <= i < |r| ==> r[i] == Some(PathNames(s, id)[i])
    decreases id
  {
    match s.nodes[id].parent
    case None => []
    case Some(p) =>
      assert NodeValid(s, id);
      Ancestry(s, p) + [s.nodes[id].name]
  }

  /** PHP's `array_filter` on a stack of names: drops null, "" and "0". */
  function Present(stack: seq<Option<string>>): (r: seq<string>)
    ensures forall i :: 0 <= i < |r| ==> !PhpEmpty(r[i])
    ensures |r| <= |stack|
  {
    if stack == [] then []
    else
      var rest := Present(stack[..|stack| - 1]);
      var last := stack[|stack| - 1];
      if last.Some? && !PhpEmpty(last.value) then rest + [last.value] else rest
  }

  /**
   * `marshalCurrentPath($token)`: the stack of names joined with the divider.
   * An empty path is returned as null from a method declared to return a
   * string, which PHP reports as a TypeError.
   */
  function MarshalCurrentPath(s: Store, id: NodeId, token: Option<string>): (r: Result<string, Error>)
    requires Valid(s) && id in s.nodes
    ensures r.Err? ==> r.error == TypeMismatch
    ensures r.Ok? ==> !PhpEmpty(r.value)
  {
    var path := JoinPath(Present(Ancestry(s, id) + [token]));
    if PhpEmpty(path) then Err(TypeMismatch) else Ok(path)
  }

  // ---------------------------------------------------------------------------
  // Notification and values
  // ---------------------------------------------------------------------------

  /** Whether the queue of node `id` has any observer. */
  predicate Observed(s: Store, id: NodeId)
    requires Valid(s) && id in s.nodes
  {
    s.queues[s.nodes[id].queue] > 0
  }

  /** The events one `update` call emits: one event, or none without observers. */
  function Fired(s: Store, id: NodeId, stage: Stage, token: Option<string>, value: Value): seq<Event>
    requires Valid(s) && id in s.nodes
  {
    if Observed(s, id) then [Event(stage, id, token, value)] else []
  }

  /** `update`: notifies the observers of the node's queue, if it has any. */
  function Notify(s: Store, id: NodeId, stage: Stage, token: Option<string>, value: Value): (r: Store)
    requires Valid(s) && id in s.nodes
    ensures r.(events := s.events) == s
    ensures !Observed(s, id) ==> r == s
    ensures Observed(s, id) ==> |r.events| == |s.events| + 1 && r.events[|s.events|].stage == stage
    ensures r.events == s.events + Fired(s, id, stage, token, value)
  {
    s.(events := s.events + Fired(s, id, stage, token, value))
  }

  /** The value a read yields: a stored closure is called, anything else is returned as is. */
  function Resolve(v: Value): (r: Value)
    ensures !v.Closure? ==> r == v
  {
    if v.Closure? then v.result else v
  }

  /** `secure($closure)`: a closure whose call yields the given closure. */
  function Secure(c: Value): (r: Value)
    requires c.Closure?
    ensures Resolve(r) == c
  {
    Closure(c)
  }

  /**
   * `cover`: on a declarative node with a declaration for `token`, the
   * callback's result replaces the value and DECLARATION_STAGE fires with it;
   * then SET_STAGE fires with the value that will be stored.
   */
  function Cover(s: Store, id: NodeId, token: string, value: Value): (r: (Store, Value))
    requires Valid(s) && id in s.nodes
    ensures r.0.(events := s.events) == s
    ensures var n := s.nodes[id];
      if n.declarative && token in n.declarations then
        && r.1 == n.declarations[token](value)
        && r.0.events == s.events + Fired(s, id, DeclarationStage, Some(token), r.1) + Fired(s, id, SetStage, Some(token), r.1)
      else
        && r.1 == value
        && r.0.events == s.events + Fired(s, id, SetStage, Some(token), value)
  {
    var n := s.nodes[id];
    if n.declarative && token in n.declarations then
      var v := n.declarations[token](value);
      var s1 := Notify(s, id, DeclarationStage, Some(token), v);
      (Notify(s1, id, SetStage, Some(token), v), v)
    else
      (Notify(s, id, SetStage, Some(token), value), value)
  }

  // ---------------------------------------------------------------------------
  // Node creation
  // ---------------------------------------------------------------------------

  /**
   * `marshalNodeInstance($origin, $token)`: a new node of the origin's class,
   * built from a `HiveIdentity` (which rejects a blank name) and sharing the
   * origin's observer queue. It is not yet linked anywhere.
   */
  function MarshalNodeInstance(s: Store, origin: NodeId, token: string): (r: Step<NodeId>)
    requires Valid(s) && origin in s.nodes
    ensures Valid(r.store) && Extends(s, r.store) && KeepsDeclarations(s, r.store)
    ensures r.store.events == s.events
    ensures r.result.Err? <==> PhpEmpty(Trim(token, Whitespace))
    ensures r.result.Err? ==> r.result.error == HiveError && r.store == s
    ensures r.result.Ok? ==>
      var c := r.result.value;
      && c == s.next && r.store.next == s.next + 1
      && c !in s.nodes && c in r.store.nodes
      && r.store.nodes == s.nodes[c := r.store.nodes[c]]
      && r.store.nodes[c].parent == Some(origin)
      && r.store.nodes[c].name == Some(Trim(token, Whitespace))
      && r.store.nodes[c].nodes == map[] && r.store.nodes[c].values == map[]
      && r.store.nodes[c].queue == s.nodes[origin].queue
      && r.store.nodes[c].declarative == s.nodes[origin].declarative
  {
    var identity := NewIdentity(origin, token, None);
    if identity.Err? then Step(s, Err(identity.error))
    else
      var o := s.nodes[origin];
      var child := NodeState(Some(GetParentNode(identity.value)), Some(GetName(identity.value)),
                             map[], map[], o.queue, o.declarative, map[]);
      AddValid(s, child);
      Step(s.(nodes := s.nodes[s.next := child], next := s.next + 1), Ok(s.next))
  }

  /** Adding a fresh, unlinked node under an existing parent keeps the store valid. */
  lemma AddValid(s: Store, n: NodeState)
    requires Valid(s)
    requires n.parent.Some? && n.parent.value in s.nodes && n.name.Some? && !PhpEmpty(n.name.value)
    requires n.queue < |s.queues| && n.nodes == map[] && n.declarations == map[]
    ensures var t := s.(nodes := s.nodes[s.next := n], next := s.next + 1);
      Valid(t) && Extends(s, t) && KeepsDeclarations(s, t) && s.next !in s.nodes
  {
    var t := s.(nodes := s.nodes[s.next := n], next := s.next + 1);
    assert NodeValid(t, s.next);
    forall id | id in t.nodes ensures id < t.next && NodeValid(t, id) {
      if id != s.next {
        assert NodeValid(s, id);
        var m := t.nodes[id];
        forall k | k in m.nodes ensures ChildValid(t, id, k, m.nodes[k]) {
          assert ChildValid(s, id, k, m.nodes[k]);
        }
      }
    }
  }

  /** Adding a fresh root keeps the store valid. */
  lemma AddRootValid(s: Store, n: NodeState)
    requires Valid(s)
    requires n.parent.None? && n.name.None? && n.queue < |s.queues| && n.nodes == map[]
    ensures Valid(s.(nodes := s.nodes[s.next := n], next := s.next + 1))
  {
    var t := s.(nodes := s.nodes[s.next := n], next := s.next + 1);
    forall id | id in t.nodes ensures id < t.next && NodeValid(t, id) {
      if id != s.next {
        assert NodeValid(s, id);
        var m := t.nodes[id];
        forall k | k in m.nodes ensures ChildValid(t, id, k, m.nodes[k]) {
          assert ChildValid(s, id, k, m.nodes[k]);
        }
      }
    }
  }

  /** Line 200 of `node()`: creates the child for `token` and links it under that raw key. */
  function CreateChild(s: Store, self: NodeId, token: string): (r: Step<()>)
    requires Valid(s) && self in s.nodes && token !in s.nodes[self].nodes
    ensures Valid(r.store) && Extends(s, r.store) && KeepsDeclarations(s, r.store)
    ensures r.store.events == s.events
    ensures r.result.Err? <==> PhpEmpty(Trim(token, Whitespace))
    ensures r.result.Err? ==> r.result.error == HiveError && r.store == s
    ensures r.result.Ok? ==>
      && token in r.store.nodes[self].nodes
      && r.store.nodes[self].nodes == s.nodes[self].nodes[token := r.store.nodes[self].nodes[token]]
      && r.store.nodes[self].nodes[token] !in s.nodes
      && r.store.nodes[self].values == s.nodes[self].values
    ensures r.result.Ok? ==>
      var c := r.store.nodes[self].nodes[token];
      && c == s.next && r.store.next == s.next + 1
      && r.store.nodes == s.nodes[self := s.nodes[self].(nodes := s.nodes[self].nodes[token := c])][c := r.store.nodes[c]]
      && r.store.nodes[c].nodes == map[] && r.store.nodes[c].values == map[]
  {
    var m := MarshalNodeInstance(s, self, token);
    if m.result.Err? then Step(m.store, Err(m.result.error))
    else
      var c := m.result.value;
      var n := m.store.nodes[self];
      assert n == s.nodes[self] && ChildValid(m.store, self, token, c);
      var t := m.store.(nodes := m.store.nodes[self := n.(nodes := n.nodes[token := c])]);
      assert t.nodes == s.nodes[self := n.(nodes := n.nodes[token := c])][c := m.store.nodes[c]];
      LinkValid(m.store, self, token, c);
      ExtendsTransitive(s, m.store, t);
      KeepsDeclarationsTransitive(s, m.store, t);
      Step(t, Ok(()))
  }

  lemma LinkValid(s: Store, self: NodeId, token: string, c: NodeId)
    requires Valid(s) && self in s.nodes
    requires ChildValid(s, self, token, c) && token !in s.nodes[self].nodes
    ensures var n := s.nodes[self];
      var t := s.(nodes := s.nodes[self := n.(nodes := n.nodes[token := c])]);
      Valid(t) && Extends(s, t) && KeepsDeclarations(s, t)
  {
    var n := s.nodes[self];
    var t := s.(nodes := s.nodes[self := n.(nodes := n.nodes[token := c])]);
    LinkExtends(s, self, token, c);
    forall id | id in t.nodes ensures id < t.next && NodeValid(t, id) {
      assert NodeValid(s, id);
      var m := t.nodes[id];
      forall k | k in m.nodes ensures ChildValid(t, id, k, m.nodes[k]) {
        if id != self || k != token {
          assert ChildValid(s, id, k, m.nodes[k]);
        }
      }
    }
  }

  lemma LinkExtends(s: Store, self: NodeId, token: string, c: NodeId)
    requires self in s.nodes && token !in s.nodes[self].nodes
    ensures var n := s.nodes[self];
      var t := s.(nodes := s.nodes[self := n.(nodes := n.nodes[token := c])]);
      Extends(s, t) && KeepsDeclarations(s, t)
  {
    var n := s.nodes[self];
    var t := s.(nodes := s.nodes[self := n.(nodes := n.nodes[token := c])]);
    assert Keeps(n, t.nodes[self]);
  }

  /** Two node states that agree on everything validity looks at. */
  predicate SameLinks(a: NodeState, b: NodeState) {
    a.parent == b.parent && a.name == b.name && a.queue == b.queue && a.declarative == b.declarative && a.nodes == b.nodes
  }

  /** Changing only what validity does not look at (values, declarations, events, more queues) keeps a store valid. */
  lemma ShapeValid(s: Store, t: Store)
    requires Valid(s) && t.nodes.Keys == s.nodes.Keys && t.next == s.next && |s.queues| <= |t.queues|
    requires forall id :: id in s.nodes ==> SameLinks(s.nodes[id], t.nodes[id])
    ensures Valid(t)
  {
    forall id | id in t.nodes ensures id < t.next && NodeValid(t, id) {
      assert NodeValid(s, id);
      var m := t.nodes[id];
      forall k | k in m.nodes ensures ChildValid(t, id, k, m.nodes[k]) {
        assert ChildValid(s, id, k, m.nodes[k]);
      }
    }
  }

  /** Replacing a node's values or declarations keeps the store valid. */
  lemma ReplaceValid(s: Store, self: NodeId, n: NodeState)
    requires Valid(s) && self in s.nodes && SameLinks(s.nodes[self], n)
    ensures Valid(s.(nodes := s.nodes[self := n]))
    ensures Extends(s, s.(nodes := s.nodes[self := n]))
  {
    var t := s.(nodes := s.nodes[self := n]);
    assert forall id :: id in s.nodes ==> SameLinks(s.nodes[id], t.nodes[id]);
    ShapeValid(s, t);
    assert Keeps(s.nodes[self], n);
  }

  lemma EventsValid(s: Store, events: seq<Event>)
    requires Valid(s)
    ensures Valid(s.(events := events))
  {
    var t := s.(events := events);
    assert forall id :: id in s.nodes ==> SameLinks(s.nodes[id], t.nodes[id]);
    ShapeValid(s, t);
  }

  // ---------------------------------------------------------------------------
  // The node operations
  // ---------------------------------------------------------------------------

  /**
   * `node($entity, $createIfNotExists)`: the node the query names, null when
   * a token is missing and creation is off. The root redirect drops the
   * creation flag. Node creation fails when the identity rejects the token.
   */
  function Node(s: Store, self: NodeId, entity: string, create: bool): (r: Step<Option<NodeId>>)
    requires Valid(s) && self in s.nodes
    ensures Valid(r.store) && Extends(s, r.store) && KeepsDeclarations(s, r.store)
    ensures r.store.events == s.events
    ensures !create ==> r.store == s
    ensures r.result.Err? ==> r.result.error == UnknownEntity || (create && r.result.error == HiveError)
    ensures r.result.Ok? && r.result.value.Some? ==> r.result.value.value in r.store.nodes
    ensures ParseKey(entity).IsEmpty() ==> r == Step(s, Err(UnknownEntity))
    decreases |entity|, 1
  {
    ParseKeyShrinks(entity);
    NodeQuery(s, self, ParseKey(entity), create)
  }

  /** The body of `node` once the key is parsed. */
  function NodeQuery(s: Store, self: NodeId, q: Query, create: bool): (r: Step<Option<NodeId>>)
    requires Valid(s) && self in s.nodes && Parsed(q)
    ensures Valid(r.store) && Extends(s, r.store) && KeepsDeclarations(s, r.store)
    ensures r.store.events == s.events
    ensures !create ==> r.store == s
    ensures r.result.Err? ==> r.result.error == UnknownEntity || (create && r.result.error == HiveError)
    ensures r.result.Ok? && r.result.value.Some? ==> r.result.value.value in r.store.nodes
    ensures q.IsEmpty() ==> r == Step(s, Err(UnknownEntity))
    decreases |q.fullQuery|, 0
  {
    QueryShrinks(q);
    if q.IsEmpty() then Step(s, Err(UnknownEntity))
    else if q.callsRoot then Node(s, Root(s, self), q.rootlessQuery, false)
    else
      var t := if create && q.firstToken !in s.nodes[self].nodes then CreateChild(s, self, q.firstToken) else Step(s, Ok(()));
      if t.result.Err? then Step(t.store, Err(t.result.error))
      else if q.firstToken !in t.store.nodes[self].nodes then Step(t.store, Ok(None))
      else
        var child := t.store.nodes[self].nodes[q.firstToken];
        assert NodeValid(t.store, self);
        if q.query.None? then Step(t.store, Ok(Some(child)))
        else
          var r := Node(t.store, child, q.query.value, create);
          ExtendsTransitive(s, t.store, r.store);
          KeepsDeclarationsTransitive(s, t.store, r.store);
          r
  }

  /**
   * `get($entity)`: the value under the last token of the path, a stored
   * closure called first; GET_STAGE fires with the value returned. A missing
   * node or key raises UnknownEntityException.
   */
  function Get(s: Store, self: NodeId, entity: string): (r: Step<Value>)
    requires Valid(s) && self in s.nodes
    ensures r.store.(events := s.events) == s && s.events <= r.store.events
    ensures r.result.Err? ==> r.store == s && r.result.error == UnknownEntity
    ensures ParseKey(entity).IsEmpty() ==> r == Step(s, Err(UnknownEntity))
    decreases |entity|, 1
  {
    ParseKeyShrinks(entity);
    GetQuery(s, self, ParseKey(entity))
  }

  /** The body of `get` once the key is parsed. */
  function GetQuery(s: Store, self: NodeId, q: Query): (r: Step<Value>)
    requires Valid(s) && self in s.nodes && Parsed(q)
    ensures r.store.(events := s.events) == s && s.events <= r.store.events
    ensures r.result.Err? ==> r.store == s && r.result.error == UnknownEntity
    ensures q.IsEmpty() ==> r == Step(s, Err(UnknownEntity))
    decreases |q.fullQuery|, 0
  {
    QueryShrinks(q);
    if q.IsEmpty() then Step(s, Err(UnknownEntity))
    else if q.callsRoot then Get(s, Root(s, self), q.rootlessQuery)
    else if q.tokenCount > 1 && q.firstToken in s.nodes[self].nodes then
      assert NodeValid(s, self);
      Get(s, s.nodes[self].nodes[q.firstToken], q.query.value)
    else if q.tokenCount > 1 then Step(s, Err(UnknownEntity))
    else if q.firstToken !in s.nodes[self].values then Step(s, Err(UnknownEntity))
    else
      var v := Resolve(s.nodes[self].values[q.firstToken]);
      Step(Notify(s, self, GetStage, None, v), Ok(v))
  }

  /**
   * `has($entity)`: key membership in the values of the node in front of the
   * last token. The node is looked up without creation, and a missing one is
   * the null receiver of the next `has` call.
   */
  function Has(s: Store, self: NodeId, entity: string): (r: Step<bool>)
    requires Valid(s) && self in s.nodes
    ensures r.store == s
    ensures r.result.Err? ==> r.result.error == UnknownEntity || r.result.error == NullReceiver
    ensures ParseKey(entity).IsEmpty() ==> r.result == Err(UnknownEntity)
    decreases |entity|, 1
  {
    ParseKeyShrinks(entity);
    HasQuery(s, self, ParseKey(entity))
  }

  /** The body of `has` once the key is parsed. */
  function HasQuery(s: Store, self: NodeId, q: Query): (r: Step<bool>)
    requires Valid(s) && self in s.nodes && Parsed(q)
    ensures r.store == s
    ensures r.result.Err? ==> r.result.error == UnknownEntity || r.result.error == NullReceiver
    ensures q.IsEmpty() ==> r.result == Err(UnknownEntity)
    decreases |q.fullQuery|, 0
  {
    QueryShrinks(q);
    if q.IsEmpty() then Step(s, Err(UnknownEntity))
    else if q.callsRoot then Has(s, Root(s, self), q.rootlessQuery)
    else if q.tokenCount > 1 then
      var n := Node(s, self, NodePath(q), false);
      if n.result.Err? then Step(s, Err(n.result.error))
      else if n.result.value.None? then Step(s, Err(NullReceiver))
      else Has(s, n.result.value.value, q.lastToken)
    else Step(s, Ok(q.firstToken in s.nodes[self].values))
  }

  /** The assignment `$this->values[$token] = …`. */
  function PutValue(s: Store, self: NodeId, token: string, value: Value): (r: Store)
    requires Valid(s) && self in s.nodes
    ensures Valid(r) && Extends(s, r) && KeepsDeclarations(s, r) && r.events == s.events
    ensures r.nodes.Keys == s.nodes.Keys
    ensures r.nodes[self].values == s.nodes[self].values[token := value]
    ensures forall id :: id in s.nodes && id != self ==> r.nodes[id] == s.nodes[id]
    ensures r.nodes[self].nodes == s.nodes[self].nodes && r.nodes[self].declarations == s.nodes[self].declarations
  {
    var n := s.nodes[self];
    var n' := n.(values := n.values[token := value]);
    ReplaceValid(s, self, n');
    s.(nodes := s.nodes[self := n'])
  }

  /**
   * `set($entity, $value)`: materialises the node path in front of the last
   * token, then stores the covered value under the last token there.
   */
  function Set(s: Store, self: NodeId, entity: string, value: Value): (r: Step<()>)
    requires Valid(s) && self in s.nodes
    ensures Valid(r.store) && Extends(s, r.store) && KeepsDeclarations(s, r.store)
    ensures ParseKey(entity).IsEmpty() ==> r == Step(s, Err(UnknownEntity))
    decreases |entity|, 1
  {
    ParseKeyShrinks(entity);
    SetQuery(s, self, ParseKey(entity), value)
  }

  /** The body of `set` once the key is parsed. */
  function SetQuery(s: Store, self: NodeId, q: Query, value: Value): (r: Step<()>)
    requires Valid(s) && self in s.nodes && Parsed(q)
    ensures Valid(r.store) && Extends(s, r.store) && KeepsDeclarations(s, r.store)
    ensures q.IsEmpty() ==> r == Step(s, Err(UnknownEntity))
    decreases |q.fullQuery|, 0
  {
    QueryShrinks(q);
    if q.IsEmpty() then Step(s, Err(UnknownEntity))
    else if q.callsRoot then Set(s, Root(s, self), q.rootlessQuery, value)
    else if q.tokenCount > 1 then
      var n := Node(s, self, NodePath(q), true);
      if n.result.Err? then Step(n.store, Err(n.result.error))
      else if n.result.value.None? then Step(n.store, Err(NullReceiver))
      else
        var r := Set(n.store, n.result.value.value, q.lastToken, value);
        ExtendsTransitive(s, n.store, r.store);
        KeepsDeclarationsTransitive(s, n.store, r.store);
        r
    else
      var c := Cover(s, self, q.firstToken, value);
      EventsValid(s, c.0.events);
      var t := PutValue(c.0, self, q.firstToken, c.1);
      ExtendsTransitive(s, c.0, t);
      KeepsDeclarationsTransitive(s, c.0, t);
      Step(t, Ok(()))
  }

  /**
   * `declare($entity, $callback)`, reading the inspection data as: `root` is
   * the root flag, `token` the last token and `query` the node path in front
   * of it (null for a single token). A root-flagged query and a target that
   * is not declaration-aware raise HiveException.
   */
  function Declare(s: Store, self: NodeId, entity: string, callback: Callback): (r: Step<()>)
    requires Valid(s) && self in s.nodes && s.nodes[self].declarative
    ensures Valid(r.store) && Extends(s, r.store) && r.store.events == s.events
    ensures ParseKey(entity).callsRoot ==> r == Step(s, Err(HiveError))
    decreases |entity|, 1
  {
    ParseKeyShrinks(entity);
    DeclareQuery(s, self, ParseKey(entity), callback)
  }

  /** The body of `declare` once the key is parsed. */
  function DeclareQuery(s: Store, self: NodeId, q: Query, callback: Callback): (r: Step<()>)
    requires Valid(s) && self in s.nodes && s.nodes[self].declarative && Parsed(q)
    ensures Valid(r.store) && Extends(s, r.store) && r.store.events == s.events
    ensures q.callsRoot ==> r == Step(s, Err(HiveError))
    decreases |q.fullQuery|, 0
  {
    QueryShrinks(q);
    if q.callsRoot then Step(s, Err(HiveError))
    else if q.tokenCount > 1 then
      var n := Node(s, self, NodePath(q), true);
      if n.result.Err? then Step(n.store, Err(n.result.error))
      else if n.result.value.None? || !n.store.nodes[n.result.value.value].declarative then Step(n.store, Err(HiveError))
      else
        var r := Declare(n.store, n.result.value.value, q.lastToken, callback);
        ExtendsTransitive(s, n.store, r.store);
        r
    else
      var n := s.nodes[self];
      var n' := n.(declarations := n.declarations[q.lastToken := callback]);
      ReplaceValid(s, self, n');
      Step(s.(nodes := s.nodes[self := n']), Ok(()))
  }
}
