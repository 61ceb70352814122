/**
 * `AbstractLoader`: copies a nested PHP array into a hive. Every key loses
 * its root descriptors; an array under a key without the value-as-is
 * identifier `!` becomes a node (created on demand) that the array is
 * injected into, and every other entry is stored with `set` under its key
 * without the leading `!`.
 */
module AbstractLoader {
  import opened Wrappers
  import opened HiveTypes
  import opened HiveQuery
  import opened HiveStore
  import opened HiveProperties
  import opened HiveFrames
  import opened HiveNode

  /** `getValueAsIsIdentifier`. */
  const ValueAsIsIdentifier: char := '!'

  // ---------------------------------------------------------------------------
  // Key rewriting
  // ---------------------------------------------------------------------------

  /** PHP's `strpos($haystack, $needle)` for a one-character needle: the first position, or false. */
  function StrPos(haystack: string, needle: char): (r: Option<nat>)
    ensures r.Some? ==> r.value < |haystack| && haystack[r.value] == needle && needle !in haystack[..r.value]
    ensures r.None? <==> needle !in haystack
  {
    if haystack == [] then None
    else if haystack[0] == needle then Some(0)
    else
      var rest := StrPos(haystack[1..], needle);
      if rest.None? then None
      else
        assert haystack[..rest.value + 1] == [haystack[0]] + haystack[1..][..rest.value];
        Some(rest.value + 1)
  }

  /** `detachRoot($key, $rootIdentifier)`: PHP's `str_replace($rootIdentifier, '', $key)`. */
  function DetachRoot(key: string, rootIdentifier: char): (r: string)
    ensures rootIdentifier !in r
    ensures forall c :: c in r <==> c in key && c != rootIdentifier
    ensures |r| == |key| - Count(key, rootIdentifier)
  {
    if key == [] then []
    else
      var rest := DetachRoot(key[1..], rootIdentifier);
      assert forall c :: c in key <==> c == key[0] || c in key[1..];
      if key[0] == rootIdentifier then rest else [key[0]] + rest
  }

  /** `hasValueAsIsIdentifier($key)`: `strpos` finds the identifier at position 0. */
  function HasValueAsIsIdentifier(key: string): (b: bool)
    ensures b <==> |key| > 0 && key[0] == ValueAsIsIdentifier
  {
    StrPos(key, ValueAsIsIdentifier) == Some(0)
  }

  /** `detachValueAsIs($key)`: `substr` past one leading identifier, otherwise the key itself. */
  function DetachValueAsIs(key: string): (r: string)
    ensures HasValueAsIsIdentifier(key) ==> [ValueAsIsIdentifier] + r == key
    ensures !HasValueAsIsIdentifier(key) ==> r == key
  {
    if HasValueAsIsIdentifier(key) then key[1..] else key
  }

  /** `str_replace` works piecewise: the key is rewritten part by part. */
  lemma {:induction false} DetachRootAppend(a: string, b: string, rootIdentifier: char)
    ensures DetachRoot(a + b, rootIdentifier) == DetachRoot(a, rootIdentifier) + DetachRoot(b, rootIdentifier)
  {
    if a != [] {
      assert (a + b)[1..] == a[1..] + b;
      DetachRootAppend(a[1..], b, rootIdentifier);
    } else {
      assert a + b == b;
    }
  }

  /** A key without the root identifier is left alone. */
  lemma {:induction false} DetachRootIdle(key: string, rootIdentifier: char)
    requires rootIdentifier !in key
    ensures DetachRoot(key, rootIdentifier) == key
  {
    if key != [] {
      assert rootIdentifier !in key[1..];
      DetachRootIdle(key[1..], rootIdentifier);
    }
  }

  /** Root identifiers are removed wherever they stand, not only in front. */
  lemma DetachRootEverywhere()
    ensures DetachRoot("~a.~b~", RootDescriptor) == "a.b"
  {
    DetachRootAppend("~", "a.~b~", RootDescriptor);
    DetachRootAppend("a.", "~b~", RootDescriptor);
    DetachRootAppend("~", "b~", RootDescriptor);
    DetachRootAppend("b", "~", RootDescriptor);
    assert "~a.~b~" == "~" + "a.~b~" && "a.~b~" == "a." + "~b~" && "~b~" == "~" + "b~" && "b~" == "b" + "~";
    DetachRootIdle("a.", RootDescriptor);
    DetachRootIdle("b", RootDescriptor);
  }

  /** Exactly one leading identifier is removed: "!!a" becomes "!a". */
  lemma DetachValueAsIsOnce(key: string)
    ensures DetachValueAsIs([ValueAsIsIdentifier] + key) == key
  {
    assert ([ValueAsIsIdentifier] + key)[1..] == key;
  }

  // ---------------------------------------------------------------------------
  // inject, as a function of the store
  // ---------------------------------------------------------------------------

  /**
   * `inject($node, $data)`: the entries in iteration order; the first
   * exception ends the walk and keeps what the earlier entries did.
   */
  function Inject(s: Store, node: NodeId, data: seq<Entry>): (r: Step<()>)
    requires Valid(s) && node in s.nodes
    ensures Valid(r.store) && Extends(s, r.store) && KeepsDeclarations(s, r.store)
    ensures data == [] ==> r == Step(s, Ok(()))
    decreases data
  {
    if data == [] then Step(s, Ok(()))
    else
      var first := InjectEntry(s, node, data[0]);
      if first.result.Err? then first
      else
        var r := Inject(first.store, node, data[1..]);
        ExtendsTransitive(s, first.store, r.store);
        KeepsDeclarationsTransitive(s, first.store, r.store);
        r
  }

  /**
   * One pass of the loop in `inject`: a nested array under a key without `!`
   * goes into `node($key, true)`, where a null node is the TypeError of
   * passing null for `HiveInterface`; anything else is `set` under the key
   * without its `!`.
   */
  function InjectEntry(s: Store, node: NodeId, entry: Entry): (r: Step<()>)
    requires Valid(s) && node in s.nodes
    ensures Valid(r.store) && Extends(s, r.store) && KeepsDeclarations(s, r.store)
    decreases entry
  {
    var key := DetachRoot(entry.key, RootDescriptor);
    if entry.value.Array? && !HasValueAsIsIdentifier(key) then
      var n := HiveStore.Node(s, node, key, true);
      if n.result.Err? then Step(n.store, Err(n.result.error))
      else if n.result.value.None? then Step(n.store, Err(TypeMismatch))
      else
        var r := Inject(n.store, n.result.value.value, entry.value.entries);
        ExtendsTransitive(s, n.store, r.store);
        KeepsDeclarationsTransitive(s, n.store, r.store);
        r
    else
      HiveStore.Set(s, node, DetachValueAsIs(key), entry.value)
  }

  // ---------------------------------------------------------------------------
  // What inject promises
  // ---------------------------------------------------------------------------

  /** Entries are handled in order: injecting `a + b` injects `a`, then, unless that threw, `b`. */
  lemma {:induction false} InjectAppend(s: Store, node: NodeId, a: seq<Entry>, b: seq<Entry>)
    requires Valid(s) && node in s.nodes
    ensures var r := Inject(s, node, a);
      Inject(s, node, a + b) == if r.result.Err? then r else Inject(r.store, node, b)
    decreases |a|
  {
    if a == [] {
      assert a + b == b;
    } else {
      assert (a + b)[0] == a[0] && (a + b)[1..] == a[1..] + b;
      var first := InjectEntry(s, node, a[0]);
      if first.result.Ok? {
        InjectAppend(first.store, node, a[1..], b);
      }
    }
  }

  /** Loading never removes a node or a stored key; it only adds and overwrites. */
  lemma {:induction false} InjectKeepsKeys(s: Store, node: NodeId, data: seq<Entry>)
    requires Valid(s) && node in s.nodes
    ensures KeepsValueKeys(s, Inject(s, node, data).store)
    decreases data
  {
    if data != [] {
      InjectEntryKeepsKeys(s, node, data[0]);
      var first := InjectEntry(s, node, data[0]);
      if first.result.Ok? {
        InjectKeepsKeys(first.store, node, data[1..]);
        KeepsValueKeysTransitive(s, first.store, Inject(first.store, node, data[1..]).store);
      }
    }
  }

  lemma {:induction false} InjectEntryKeepsKeys(s: Store, node: NodeId, entry: Entry)
    requires Valid(s) && node in s.nodes
    ensures KeepsValueKeys(s, InjectEntry(s, node, entry).store)
    decreases entry
  {
    var key := DetachRoot(entry.key, RootDescriptor);
    if entry.value.Array? && !HasValueAsIsIdentifier(key) {
      var n := HiveStore.Node(s, node, key, true);
      NodeKeepsValues(s, node, key, true);
      KeepsValuesKeys(s, n.store);
      if n.result.Ok? && n.result.value.Some? {
        InjectKeepsKeys(n.store, n.result.value.value, entry.value.entries);
        KeepsValueKeysTransitive(s, n.store, Inject(n.store, n.result.value.value, entry.value.entries).store);
      }
    } else {
      SetKeepsKeys(s, node, DetachValueAsIs(key), entry.value);
    }
  }

  /** A list of one entry is that entry. */
  lemma InjectSingle(s: Store, node: NodeId, entry: Entry)
    requires Valid(s) && node in s.nodes
    ensures Inject(s, node, [entry]) == InjectEntry(s, node, entry)
  {
    assert [entry][1..] == [];
    var first := InjectEntry(s, node, entry);
    if first.result.Ok? {
      UnitOk(first.result);
    }
  }

  /** The only success of a `void` operation. */
  lemma UnitOk(r: Result<(), Error>)
    requires r.Ok?
    ensures r == Ok(())
  {
    var u: () := r.value;
    assert u == ();
    assert r == Ok(u);
  }

  /** A scalar, or an array under a `!` key, is stored with `set` under the key without `~` and `!`. */
  lemma InjectValue(s: Store, node: NodeId, key: string, value: Value)
    requires Valid(s) && node in s.nodes
    requires !value.Array? || HasValueAsIsIdentifier(DetachRoot(key, RootDescriptor))
    ensures Inject(s, node, [Entry(key, value)]) ==
      HiveStore.Set(s, node, DetachValueAsIs(DetachRoot(key, RootDescriptor)), value)
  {
    InjectSingle(s, node, Entry(key, value));
  }

  /** An array under a key without `!` is injected into `node(key, true)`. */
  lemma InjectArray(s: Store, node: NodeId, key: string, entries: seq<Entry>)
    requires Valid(s) && node in s.nodes && !HasValueAsIsIdentifier(DetachRoot(key, RootDescriptor))
    ensures var n := HiveStore.Node(s, node, DetachRoot(key, RootDescriptor), true);
      Inject(s, node, [Entry(key, Array(entries))]) ==
        if n.result.Err? then Step(n.store, Err(n.result.error))
        else if n.result.value.None? then Step(n.store, Err(TypeMismatch))
        else Inject(n.store, n.result.value.value, entries)
  {
    InjectSingle(s, node, Entry(key, Array(entries)));
  }

  /** `['!k' => [...]]` stores the array itself under `k`: no node is made for it. */
  lemma ValueAsIsArray(s: Store, node: NodeId, k: string, entries: seq<Entry>)
    requires Valid(s) && node in s.nodes && RootDescriptor !in k
    ensures Inject(s, node, [Entry([ValueAsIsIdentifier] + k, Array(entries))]) ==
      HiveStore.Set(s, node, k, Array(entries))
  {
    var key := [ValueAsIsIdentifier] + k;
    assert RootDescriptor !in key;
    DetachRootIdle(key, RootDescriptor);
    DetachValueAsIsOnce(k);
    InjectValue(s, node, key, Array(entries));
  }

  /** A key that is a plain token without `!` survives the key rewriting unchanged. */
  lemma PlainKeyKept(k: string)
    requires IsPlainToken(k) && RootDescriptor !in k && k[0] != ValueAsIsIdentifier
    ensures DetachRoot(k, RootDescriptor) == k && !HasValueAsIsIdentifier(k) && DetachValueAsIs(k) == k
  {
    DetachRootIdle(k, RootDescriptor);
  }

  /** Every nested array, even an empty one, materialises a node under its key. */
  lemma EmptyArrayMakesNode(s: Store, node: NodeId, k: string)
    requires Valid(s) && node in s.nodes
    requires IsPlainToken(k) && RootDescriptor !in k && k[0] != ValueAsIsIdentifier
    ensures var r := Inject(s, node, [Entry(k, Array([]))]);
      r.result == Ok(()) && Lookup(r.store, node, [k]).Some?
  {
    InjectIntoChild(s, node, k, []);
  }

  /** An array under a plain key is injected into the child of that name, made when missing. */
  lemma InjectIntoChild(s: Store, node: NodeId, k: string, entries: seq<Entry>)
    requires Valid(s) && node in s.nodes
    requires IsPlainToken(k) && RootDescriptor !in k && k[0] != ValueAsIsIdentifier
    ensures var n := HiveStore.Node(s, node, k, true);
      && n.result.Ok? && n.result.value.Some?
      && Lookup(n.store, node, [k]) == n.result.value
      && Inject(s, node, [Entry(k, Array(entries))]) == Inject(n.store, n.result.value.value, entries)
  {
    PlainKeyKept(k);
    InjectArray(s, node, k, entries);
    ChildCreated(s, node, k);
  }

  /** `node(k, true)` on a plain token yields the child named `k`. */
  lemma ChildCreated(s: Store, node: NodeId, k: string)
    requires Valid(s) && node in s.nodes && IsPlainToken(k)
    ensures var n := HiveStore.Node(s, node, k, true);
      && n.result.Ok? && n.result.value.Some?
      && Lookup(n.store, node, [k]) == n.result.value
  {
    PlainTokenQuery(k);
    NodeCreates(s, node, [k]);
  }

  /** A scalar under a plain key without `!` is stored in this node under that key. */
  lemma InjectPlainValue(s: Store, node: NodeId, k: string, v: Value)
    requires Valid(s) && node in s.nodes && !v.Array?
    requires IsPlainToken(k) && RootDescriptor !in k && k[0] != ValueAsIsIdentifier
    ensures Inject(s, node, [Entry(k, v)]) == Step(Store1(s, node, k, v), Ok(()))
  {
    PlainKeyKept(k);
    InjectValue(s, node, k, v);
    SetOne(s, node, k, v);
  }

  /**
   * `['k1' => ['k2' => v]]` makes `get('k1.k2')` yield `v` (called first
   * when it is a closure), unless the child `k1` already declares `k2`.
   */
  lemma NestedArrayIsPath(s: Store, node: NodeId, k1: string, k2: string, v: Value)
    requires Valid(s) && node in s.nodes && LastUndeclared(s, node, [k1, k2]) && !v.Array?
    requires IsPlainToken(k1) && RootDescriptor !in k1 && k1[0] != ValueAsIsIdentifier
    requires IsPlainToken(k2) && RootDescriptor !in k2 && k2[0] != ValueAsIsIdentifier
    ensures var r := Inject(s, node, [Entry(k1, Array([Entry(k2, v)]))]);
      r.result == Ok(()) && Get(r.store, node, k1 + [Divider] + k2).result == Ok(Resolve(v))
  {
    InjectIntoChild(s, node, k1, [Entry(k2, v)]);
    var n := HiveStore.Node(s, node, k1, true);
    var c := n.result.value.value;
    PairPath(k1, k2);
    MaterialiseUndeclared(s, node, [k1, k2]);
    InjectPlainValue(n.store, c, k2, v);
    StoreThenRead(n.store, node, [k1, k2], c, v);
  }

  /** The two-token path `k1.k2`. */
  lemma PairPath(k1: string, k2: string)
    requires IsPlainToken(k1) && IsPlainToken(k2)
    ensures var ts := [k1, k2];
      IsPlainPath(ts) && JoinPath(ts) == k1 + [Divider] + k2 && Init(ts) == [k1] && Last(ts) == k2
  {
    var ts := [k1, k2];
    assert ts[1..] == [k2];
    PlainTokenQuery(k2);
  }

  /**
   * The round trip of the loader: after loading `[k => v]` with a scalar
   * `v` into a node that declares nothing for `k`, `get(k)` yields `v`
   * (called first when it is a closure).
   */
  lemma LoadThenGet(s: Store, node: NodeId, k: string, v: Value)
    requires Valid(s) && node in s.nodes && k !in s.nodes[node].declarations && !v.Array?
    requires IsPlainToken(k) && RootDescriptor !in k && k[0] != ValueAsIsIdentifier
    ensures var r := Inject(s, node, [Entry(k, v)]);
      r.result == Ok(()) && Get(r.store, node, k).result == Ok(Resolve(v))
  {
    InjectPlainValue(s, node, k, v);
    StoreThenReadHere(s, node, k, v);
  }

  /** A value stored in this node under a plain token reads back through `get` of that token. */
  lemma StoreThenReadHere(s: Store, node: NodeId, k: string, v: Value)
    requires Valid(s) && node in s.nodes && k !in s.nodes[node].declarations && IsPlainToken(k)
    ensures Get(Store1(s, node, k, v), node, k).result == Ok(Resolve(v))
  {
    PlainTokenQuery(k);
    assert Init([k]) == [] && Last([k]) == k;
    StoreThenRead(s, node, [k], node, v);
  }

  /** Loading `['foo' => 'bar']` makes `get('foo')` yield "bar". */
  lemma LoadFooBar(s: Store, node: NodeId)
    requires Valid(s) && node in s.nodes && "foo" !in s.nodes[node].declarations
    ensures var r := Inject(s, node, [Entry("foo", Str("bar"))]);
      r.result == Ok(()) && Get(r.store, node, "foo").result == Ok(Str("bar"))
  {
    FooIsPlain();
    LoadThenGet(s, node, "foo", Str("bar"));
  }

  lemma FooIsPlain()
    ensures IsPlainToken("foo") && RootDescriptor !in "foo" && "foo"[0] != ValueAsIsIdentifier
  {
    var foo := "foo";
    assert foo[0] == 'f' && foo[2] == 'o';
    assert Lower(foo) == foo by {
      assert foo == ['f'] + "oo" && "oo" == ['o'] + "o";
    }
    assert Divider !in foo && RootDescriptor !in foo;
  }

  /**
   * A list has integer keys, and key 0 becomes "0", an empty query: loading
   * a list raises UnknownEntityException before anything is stored.
   */
  lemma ListRejected(s: Store, node: NodeId, v: Value, rest: seq<Entry>)
    requires Valid(s) && node in s.nodes
    ensures Inject(s, node, [Entry("0", v)] + rest) == Step(s, Err(UnknownEntity))
  {
    ZeroEntryRejected(s, node, v);
    assert ([Entry("0", v)] + rest)[0] == Entry("0", v);
  }

  /** The entry under "0" throws before it changes anything. */
  lemma ZeroEntryRejected(s: Store, node: NodeId, v: Value)
    requires Valid(s) && node in s.nodes
    ensures InjectEntry(s, node, Entry("0", v)) == Step(s, Err(UnknownEntity))
  {
    DetachRootIdle("0", RootDescriptor);
    assert !HasValueAsIsIdentifier("0") && DetachValueAsIs("0") == "0";
    ZeroKeyIsEmpty();
  }

  // ---------------------------------------------------------------------------
  // The loader object
  // ---------------------------------------------------------------------------

  /** A loader holding the array its `load` produced. */
  class Loader {
    var data: seq<Entry>

    /** A loader whose `load` has produced `data`. */
    constructor (data: seq<Entry>)
      ensures this.data == data
    {
      this.data := data;
    }

    /** `injectInto($node)`: injects the loaded array into the node. */
    method InjectInto(h: Hive, node: NodeId) returns (r: Result<(), Error>)
      requires h.Inv() && node in h.nodes
      modifies h
      ensures h.Inv()
      ensures var step := Inject(old(h.State()), node, data);
        h.State() == step.store && r == step.result
    {
      r := InjectData(h, node, data);
    }

    /** `inject($node, $data)`: the `foreach` loop, recursing into nested arrays. */
    method InjectData(h: Hive, node: NodeId, data: seq<Entry>) returns (r: Result<(), Error>)
      requires h.Inv() && node in h.nodes
      modifies h
      ensures h.Inv()
      ensures var step := Inject(old(h.State()), node, data);
        h.State() == step.store && r == step.result
      decreases data
    {
      var i := 0;
      while i < |data|
        invariant 0 <= i <= |data|
        invariant h.Inv() && node in h.nodes
        invariant Inject(old(h.State()), node, data) == Inject(h.State(), node, data[i..])
      {
        var entry := data[i];
        ghost var s := h.State();
        assert data[i..][0] == entry && data[i..][1..] == data[i + 1..];
        var key := DetachRoot(entry.key, RootDescriptor);
        if entry.value.Array? && !HasValueAsIsIdentifier(key) {
          var sub := h.Node(node, key, true);
          if sub.Err? {
            return Err(sub.error);
          }
          if sub.value.None? {
            return Err(TypeMismatch);
          }
          var res := InjectData(h, sub.value.value, entry.value.entries);
          if res.Err? {
            return res;
          }
        } else {
          var res := h.Set(node, DetachValueAsIs(key), entry.value);
          if res.Err? {
            return res;
          }
        }
        assert h.State() == InjectEntry(s, node, entry).store;
        i := i + 1;
      }
      r := Ok(());
    }
  }
}
