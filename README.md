# hive-foundation in Dafny

A model of the container core of subcosm/hive-foundation. A *hive* is a tree of
node objects. Each node holds values under string keys and child nodes under
string keys. A dotted key such as `a.b.c` walks down the tree, and a leading `~`
sends the rest of the key to the root of the tree. Observers of a tree hear about
reads and writes. A declaration-aware node can *declare* a callback for a key; the
callback then rewrites every value stored under that key. A loader copies a
nested PHP array into a hive: nested arrays become nodes, and everything else
becomes a value.

Layout, one module per file:

- `wrappers.dfy` (`Wrappers`): `Option` and `Result`.
- `hive_types.dfy` (`HiveTypes`): the PHP values a hive stores, observer stages
  and events, and the exceptions.
- `hive_query.dfy` (`HiveQuery`): `marshalNodeKey`, which lower-cases a key and
  trims it, and the `HiveQuery` parser.
- `hive_identity.dfy` (`HiveIdentity`): the name a child node gets.
- `hive_store.dfy` (`HiveStore`): the state of all node objects as one value, a
  `Store`, and every `HiveNode` / `DeclarativeHiveNode` operation as a function
  from a store to a `Step`. A `Step` holds the new store and the result or
  exception. Changes made before an exception are kept.
- `hive_node.dfy` (`HiveNode`): the class `Hive`. Its fields are the node
  objects, observer queues, event log and next object id. Its methods change
  those fields step by step, as the PHP methods do. Each method is proved to
  leave exactly the state, and return exactly the result, that the matching
  `HiveStore` function gives.
- `hive_properties.dfy` (`HiveProperties`): reference definitions. `Lookup`
  follows child links; `Read` and `Contains` look at the node that walk reaches.
  The lemmas here prove that `get`, `has`, `set` and `node` along a plain path
  agree with these definitions.
- `hive_frames.dfy` (`HiveFrames`): what the writing operations leave alone.
  `node` writes no value, creating along a plain path adds exactly the missing
  nodes, `set` changes exactly one value, and no key is ever removed.
- `hive_routing.dfy`, `hive_paths.dfy`, `hive_declarations.dfy`: the root
  redirect, key spelling, `getPath`, and declarations.
- `abstract_loader.dfy` (`AbstractLoader`): the key rewriting of
  `AbstractLoader`, `inject` as a function of the store, the class `Loader`
  whose methods run the loop, and what loading promises.

Object identity is an arena: node objects are `NodeId`s into a map, and a
child's id is always greater than its parent's. Observers are counted per queue;
each notification is appended to an event log. PHP closures stored as values are
`Closure(v)` values that yield `v` when called. Declaration callbacks are Dafny
functions `Value -> Value`.

Normalisation trims only the two ends of a whole key, so a space next to an inner
divider survives into a token. `get` compares its first token with the child keys
as it stands. `has` and `set` instead pass the node path on to `node`, and `node`
normalises it again. In `HiveRouting` this is worked out for the key "a .b":
`set` stores under child "a", `has` finds the value, and `get` raises for an
unknown entity.

## Model

| member | source | states |
|---|---|---|
| HiveQuery.Lower | src/Container/HiveNode.php:445-450 | `strtolower` keeps the length and lower-cases each character on its own |
| HiveQuery.Trim | src/Container/HiveNode.php:445-450 | `trim` leaves no trimmed character at either end, and leaves a string that has none there unchanged |
| HiveQuery.TrimInside | src/Container/HiveNode.php:445-450 | trimming keeps only characters of the original, and a string made only of trimmed characters becomes empty |
| HiveQuery.NormalizeKey | src/Container/HiveNode.php:445-450 | the normalised key is no longer than the key, is lower case, and has no `.` or space at either end |
| HiveQuery.NormalizeKeyIdempotent | src/Container/HiveNode.php:445-450 | normalising a normalised key changes nothing, so a key handed on to a child or the root reads the same |
| HiveQuery.Explode | src/Container/HiveQuery.php:113 | `explode` never returns an empty list |
| HiveQuery.ImplodeExplode | src/Container/HiveQuery.php:113 | joining the tokens of `explode` with the divider gives back the string |
| HiveQuery.ExplodeImplode | src/Container/HiveQuery.php:113 | `explode` of a join gives back the tokens when none contains the divider |
| HiveQuery.ExplodeTokens | src/Container/HiveQuery.php:113 | no token contains the divider |
| HiveQuery.ExplodeCount | src/Container/HiveQuery.php:115 | the token count is the number of dividers plus one |
| HiveQuery.NewQuery | src/Container/HiveQuery.php:104-132 | the parsed query: root flag exactly when the query starts with `~`, rootless query, token count, first and last token without a divider, and the remainder queries for two and for more tokens |
| HiveQuery.NodePath | src/Container/HiveNode.php:128 | the node path rebuilt from first token and segmented query is the first token when there are at most two tokens |
| HiveQuery.ParseKeyShrinks | src/Container/HiveNode.php:395-400 | the query `marshalNodeQuery` builds is a parsed query no longer than the key |
| HiveQuery.ParseKeyReparses | src/Container/HiveNode.php:395-400 | the query text `marshalNodeQuery` builds is already normalised: building a query from it gives the same query |
| HiveQuery.Query.IsEmpty | src/Container/HiveQuery.php:92-95 | PHP's `empty` of the full query: the empty query is empty, and an empty query has at most one character |
| HiveQuery.OneCharacterEmpty | src/Container/HiveQuery.php:92-95 | of the one-character queries exactly "0" is empty |
| HiveQuery.QueryShrinks | src/Container/HiveQuery.php:104-132 | the rootless query, and the remainder after the first token, are shorter than the full query, so every redelegation terminates |
| HiveQuery.RootedQuery | src/Container/HiveQuery.php:108-111 | `~p` for a normalised non-empty `p` calls the root with exactly `p` |
| HiveQuery.BlankKeyIsEmpty | src/Container/HiveQuery.php:92-95 | a key made only of dots and spaces is an empty query |
| HiveQuery.ZeroKeyIsEmpty | src/Container/HiveQuery.php:92-95 | "0" and " 0. " are empty queries, as PHP's `empty` says |
| HiveQuery.RootOnlyKey | tests/HiveNodeTest.php:169-175 | a bare `~` is not empty but calls the root with the empty query |
| HiveQuery.DoubleRootDescriptor | src/Container/HiveQuery.php:108-111 | `~~a` loses exactly one descriptor |
| HiveQuery.PaddedKeyQuery | src/Container/HiveNode.php:445-450 | only the ends of a whole key are trimmed: "a .b" has the two tokens "a " and "b" |
| HiveQuery.PaddedTokenTrims | src/Container/HiveNode.php:445-450 | the token "a " normalises to the plain token "a" when it is parsed again on its own |
| HiveQuery.PlainPathTokens | src/Container/HiveQuery.php:113-115 | a join of plain tokens explodes back into those tokens |
| HiveQuery.PlainPathParses | src/Container/HiveQuery.php:104-132 | a join of plain tokens is already normalised, and parses to its first token, last token, count and remainder |
| HiveIdentity.NewIdentity | src/Container/HiveIdentity.php:46-55 | construction fails with HiveException exactly when the trimmed name is empty; otherwise the identity keeps the parent, the trimmed name and the default declaration |
| HiveIdentity.GettersRebuild | src/Container/HiveIdentity.php:62-85 | `getParentNode`, `getName` and `getDefaultDeclaration` give back what the identity holds: constructing again from their results yields the same identity |
| HiveIdentity.NameIsTrimmed | src/Container/HiveIdentity.php:46-55 | a stored name has no whitespace at either end and is not empty |
| HiveIdentity.PaddedNameIsTrimmed | src/Container/HiveIdentity.php:53 | the name "a " is stored as "a" |
| HiveIdentity.BlankNameRejected | tests/HiveIdentityTest.php:35-40 | the names "   " and "0" are rejected |
| HiveStore.Root | src/Container/HiveNode.php:235-244 | the root is a parentless node of the store, no younger than the node, and the root of the parent for a child |
| HiveStore.IsRoot | src/Container/HiveNode.php:219-226 | `isRoot()` holds exactly for a node without a parent; `isRoot($n)` holds only for a parentless `$n` no younger than the node |
| HiveStore.HasParent | src/Container/HiveNode.php:251-254 | a node has a parent exactly when it is not its own root |
| HiveStore.IsParent | src/Container/HiveNode.php:262-265 | a parent is an older node of the same tree |
| HiveStore.GetParent | src/Container/HiveNode.php:272-275 | no parent exactly for a root; otherwise an older node of the same tree |
| HiveStore.PathNames | src/Container/HiveNode.php:424-437 | the names from the root down; empty exactly for a root, and no name is empty |
| HiveStore.Ancestry | src/Container/HiveNode.php:427-432 | the stack `array_unshift` builds holds, top first, the name of every node below the root on the way down, none of them null |
| HiveStore.Present | src/Container/HiveNode.php:433 | `array_filter` keeps no null, "" or "0" and never lengthens the stack |
| HiveStore.MarshalCurrentPath | src/Container/HiveNode.php:424-437 | the joined path is never empty; the only failure is the TypeError of returning null |
| HiveStore.Notify | src/Container/HiveNode.php:381-387 | `update` changes only the event log, adds exactly one event of the stage when the queue has observers, and adds none otherwise |
| HiveStore.Resolve | src/Container/HiveNode.php:470-473 | only a closure is called; any other value is returned as it is |
| HiveStore.Secure | src/Container/HiveNode.php:368-373 | calling the secured closure yields the original closure |
| HiveStore.Cover | src/Container/DeclarativeHiveNode.php:67-78 | `cover` changes only the event log; with a declaration it yields the callback's result and fires DECLARATION_STAGE then SET_STAGE, and without one it yields the value and fires SET_STAGE |
| HiveStore.MarshalNodeInstance | src/Container/HiveNode.php:459-462 | fails with HiveException, changing nothing, exactly when the trimmed token is empty; otherwise adds one fresh unlinked node of the origin's class and queue, named by the trimmed token |
| HiveStore.CreateChild | src/Container/HiveNode.php:199-201 | links a fresh child under the raw key and no other, or fails exactly when the trimmed key is empty; on success the new store is the old one plus the new child, under the next free id with no children and no values, and that one link |
| HiveStore.Node | src/Container/HiveNode.php:187-211 | `node` keeps the store valid, removes no node and no link, fires no event, changes nothing without creation, rejects an empty query unchanged, and fails only with UnknownEntity or, when creating, HiveException |
| HiveStore.NodeQuery | src/Container/HiveNode.php:191-210 | the same as `Node`, for an already parsed query |
| HiveStore.Get | src/Container/HiveNode.php:69-106 | `get` changes only the event log, and fails only with UnknownEntity, then changing nothing at all |
| HiveStore.GetQuery | src/Container/HiveNode.php:73-105 | the same as `Get`, for an already parsed query |
| HiveStore.Has | src/Container/HiveNode.php:115-136 | `has` changes nothing and fails only with UnknownEntity or the call on null of a missing node |
| HiveStore.HasQuery | src/Container/HiveNode.php:119-135 | the same as `Has`, for an already parsed query |
| HiveStore.PutValue | src/Container/HiveNode.php:176 | the assignment changes exactly one value of one node |
| HiveStore.Set | src/Container/HiveNode.php:147-177 | `set` keeps the store valid, removes no node and no link, leaves declarations alone, and rejects an empty query unchanged |
| HiveStore.SetQuery | src/Container/HiveNode.php:151-176 | the same as `Set`, for an already parsed query |
| HiveStore.Declare | src/Container/DeclarativeHiveNode.php:36-58 | `declare` keeps the store valid, fires no event, and rejects a root query unchanged |
| HiveStore.DeclareQuery | src/Container/DeclarativeHiveNode.php:40-57 | the same as `Declare`, for an already parsed query |
| HiveProperties.NodeFinds | src/Container/HiveNode.php:187-211 | for a plain path `p`, `node(p)` without creation returns the node `Lookup` reaches along `p`, or null, and changes nothing |
| HiveProperties.NodeCreates | src/Container/HiveNode.php:187-211 | for a plain path `p`, `node(p, true)` always returns a node, the one `Lookup` then reaches; it changes nothing when the path already exists, and otherwise returns a new node |
| HiveProperties.LookupExtends | src/Container/HiveNode.php:199-201 | children are only ever added, so a walk that succeeds keeps reaching the same node |
| HiveProperties.GetOne | src/Container/HiveNode.php:89-105 | a one-token `get` reads the token at the node itself |
| HiveProperties.GetWalks | src/Container/HiveNode.php:69-106 | for a plain path `p`, `get(p)` reads the last token at the node `Lookup` reaches along the rest of `p` |
| HiveProperties.HasWalks | src/Container/HiveNode.php:115-136 | for a plain path `p`, `has(p)` tests the last token at the node reached along the rest of `p`, and a missing node is a call on null |
| HiveProperties.SetOne | src/Container/HiveNode.php:176 | a one-token `set` stores the covered value at the node itself |
| HiveProperties.SetWalks | src/Container/HiveNode.php:147-177 | for a plain path `p`, `set(p, v)` materialises the node path in front of the last token of `p`, then stores the covered `v` under the last token at the node reached |
| HiveProperties.Store1Plain | src/Container/HiveNode.php:409-416 | under a key the node declares nothing for, the value itself is stored and SET_STAGE fires once |
| HiveProperties.SetThenGet | tests/HiveNodeTest.php:118-126 | for a plain path `p` whose last token is not declared at the node the path in front of it leads to, after `set(p, v)`, `get(p)` yields `v` (a closure called) and `has(p)` is true |
| HiveProperties.StoreThenRead | src/Container/HiveNode.php:69-106 | a value stored where the walk ends is what `get` yields and `has` sees |
| HiveProperties.ReadBack | src/Container/HiveNode.php:89-105 | a value found at the end of the walk is what `get` yields and what `has` reports |
| HiveRouting.SameQuery | src/Container/HiveNode.php:395-400 | keys with the same parsed query act alike in `get`, `has`, `set` and `node` |
| HiveRouting.SetThenGetAnySpelling | src/Container/HiveNode.php:445-450 | any two spellings that normalise to the same plain path reach the same value, when its last token is not declared where it is stored |
| HiveRouting.MixedCaseSpelling | src/Container/HiveNode.php:445-450 | " Foo.BAR. " normalises to the path foo.bar |
| HiveRouting.PaddedKeyActsDotted | src/Container/HiveNode.php:81-87 | `set` and `has` pass the node path "a " to `node`, which trims it, so "a .b" acts as "a.b" there; `get` looks the child "a " up untrimmed and raises for an unknown entity when it is missing |
| HiveRouting.DottedSetWalk | src/Container/HiveNode.php:169-171 | `set('a.b', v)` is `node('a', true)` followed by storing `v` under "b" at that node |
| HiveRouting.DottedSetAddsNoPadded | src/Container/HiveNode.php:169-171 | `set('a.b', v)` links no child under "a " |
| HiveRouting.PaddedKeySetNotGot | src/Container/HiveNode.php:81-87 | after `set('a .b', v)` under a node without an "a " child (and whose child "a", if any, declares nothing for "b"), `has('a .b')` is true and `get('a.b')` yields `v`, but `get('a .b')` raises for an unknown entity |
| HiveRouting.SecureRoundTrip | tests/HiveNodeTest.php:244-258 | a secured closure reads back as the closure itself |
| HiveRouting.LookupRoot | src/Container/HiveNode.php:235-244 | every node below a node has the same root |
| HiveRouting.RootRedirect | src/Container/HiveNode.php:77-79 | a `~` query gives the same result and store from any two nodes of one tree |
| HiveRouting.RootRedirectBelow | tests/HiveNodeTest.php:132-135 | in particular from a node and any node below it |
| HiveRouting.TildePath | src/Container/HiveQuery.php:108-111 | `~p` for a plain path calls the root with exactly `p` |
| HiveRouting.TildeGoesToRoot | src/Container/HiveNode.php:195-197 | `get`, `has` and `set` of `~p` anywhere are those of `p` on the root; `node('~p', true)` is `node('p')` on the root, without creation |
| HiveRouting.RootNodeNeverCreates | src/Container/HiveNode.php:196 | the root redirect of `node` drops the creation flag and changes nothing |
| HiveRouting.BareTildeRejected | tests/HiveNodeTest.php:169-175 | a bare `~` is rejected as an empty query by every operation, changing nothing |
| HiveRouting.NodeTwice | src/Container/HiveNode.php:199-209 | asking for a materialised path again yields the same node and changes nothing |
| HiveRouting.NodeAddsOne | src/Container/HiveNode.php:199-201 | `node(t, true)` for a plain token always yields a node and adds at most the child `t` to the node it is called on |
| HiveFrames.CreateChildKeepsValues | src/Container/HiveNode.php:199-201 | linking a new child writes no value, and the child holds none |
| HiveFrames.CreateChildAddsOne | src/Container/HiveNode.php:199-201 | a successful link adds exactly one node |
| HiveFrames.NodeKeepsValues | src/Container/HiveNode.php:187-211 | whatever the key, `node` writes and removes no value, and every node it creates holds none |
| HiveFrames.NodeQueryKeepsValues | src/Container/HiveNode.php:191-210 | the same, for a parsed query |
| HiveFrames.Missing | src/Container/HiveNode.php:199-209 | how many tokens of a path are missing, from the first one without a child on: none exactly when the whole path exists |
| HiveFrames.NodeCreatesOnlyMissing | src/Container/HiveNode.php:199-209 | for a plain path `p`, `node(p, true)` adds exactly as many nodes as are missing along `p`, writes no value, and yields a new node exactly when something was missing |
| HiveFrames.Store1WritesOnly | src/Container/HiveNode.php:176 | storing at a node writes the covered value under the token there and changes no other value |
| HiveFrames.SetWritesOne | src/Container/HiveNode.php:147-177 | for a plain path `p`, `set(p, v)` changes exactly one value, the one under the last token at the node the path in front of it then leads to, which is `v` when that node declares nothing for the token; it adds exactly the nodes missing along that path |
| HiveFrames.SetWritesAtMostOne | src/Container/HiveNode.php:147-177 | for any key, a `set` that succeeds changes exactly one value of one node, and one that throws changes none; nodes made on the way hold no value |
| HiveFrames.SetQueryWritesAtMostOne | src/Container/HiveNode.php:151-176 | the same, for a parsed query |
| HiveFrames.SetKeepsKeys | src/Container/HiveNode.php:147-177 | `set` never removes a node or a stored key |
| HivePaths.PresentAncestry | src/Container/HiveNode.php:424-437 | filtering the stack keeps every stored name |
| HivePaths.GetPathOfRoot | src/Container/HiveNode.php:312-315 | `getPath` on a root is the TypeError of returning null |
| HivePaths.GetPathJoinsNames | src/Container/HiveNode.php:312-315 | below the root, `getPath` joins the names from the root down |
| HivePaths.MarshalWithToken | src/Container/HiveNode.php:424-437 | a non-empty token comes last in the path |
| HivePaths.ChildPath | src/Container/HiveNode.php:459-462 | a child's path names are its parent's and its trimmed key |
| HivePaths.LookupPath | src/Container/HiveNode.php:424-437 | walking along keys that trimming leaves alone appends exactly those keys to the path names |
| HivePaths.PathOfMaterialisedNode | tests/HiveNodeTest.php:69-70 | a node that `node(p, true)` makes under a root reports `p` as its path |
| HiveDeclarations.DeclareOne | src/Container/DeclarativeHiveNode.php:57 | `declare(t, cb)` on one token stores `cb` under `t` and changes nothing else |
| HiveDeclarations.LookupDeclarative | src/Container/HiveNode.php:459-462 | every node below a node is of the same class |
| HiveDeclarations.DeclareWalk | src/Container/DeclarativeHiveNode.php:46-55 | on a longer plain path, `declare` materialises the node path and declares the last token there |
| HiveDeclarations.SetDeclared | src/Container/DeclarativeHiveNode.php:67-78 | storing under a declared token stores the callback's result and fires DECLARATION_STAGE then SET_STAGE |
| HiveDeclarations.SetUndeclared | src/Container/DeclarativeHiveNode.php:67-78 | without a declaration the value is stored unchanged and only SET_STAGE fires |
| HiveDeclarations.DeclareThenSet | tests/DeclarativeHiveNodeTest.php:22-70 | after `declare(t, cb)` and `set(t, v)`, `get(t)` yields what `cb` made of `v` |
| HiveNode.Hive.NewQueue | src/Container/HiveNode.php:54-60 | a new observer queue without observers is appended; nothing else changes |
| HiveNode.Hive.NewRoot | src/Container/HiveNode.php:54-60 | a parentless node is added under a fresh id, with a fresh queue unless one is given |
| HiveNode.Hive.Attach | src/Container/HiveNode.php:323-326 | the node's queue gains one observer; nothing else changes |
| HiveNode.Hive.WithObservers | src/Container/HiveNode.php:345-350 | only the node's queue changes |
| HiveNode.Hive.GetRoot | src/Container/HiveNode.php:235-244 | the loop climbing parent links returns `Root` |
| HiveNode.Hive.IsRoot | src/Container/HiveNode.php:220-227 | the result is `isRoot` of the state; without an argument, whether the node has no parent |
| HiveNode.Hive.MarshalCurrentPath | src/Container/HiveNode.php:424-437 | the loop collecting names returns `HiveStore.MarshalCurrentPath` |
| HiveNode.Hive.GetPath | src/Container/HiveNode.php:312-315 | the path without a token |
| HiveNode.Hive.Update | src/Container/HiveNode.php:381-387 | the new state is `Notify` of the old |
| HiveNode.Hive.Cover | src/Container/HiveNode.php:409-416 | the new state and the value are `HiveStore.Cover` of the old state |
| HiveNode.Hive.MarshalNodeInstance | src/Container/HiveNode.php:459-462 | the new state and result are `HiveStore.MarshalNodeInstance` of the old state |
| HiveNode.Hive.Node | src/Container/HiveNode.php:187-211 | the new state and result are `HiveStore.Node` of the old state |
| HiveNode.Hive.NodeParsed | src/Container/HiveNode.php:191-197 | the new state and result are `HiveStore.NodeQuery` of the old state |
| HiveNode.Hive.NodeChild | src/Container/HiveNode.php:199-210 | on a query that is neither empty nor rooted, the new state and result are `HiveStore.NodeQuery` of the old state |
| HiveNode.Hive.CreateChild | src/Container/HiveNode.php:199-201 | the new state and result are `HiveStore.CreateChild` of the old state |
| HiveNode.Hive.Get | src/Container/HiveNode.php:69-106 | the new state and result are `HiveStore.Get` of the old state |
| HiveNode.Hive.Has | src/Container/HiveNode.php:115-136 | the new state and result are `HiveStore.Has` of the old state |
| HiveNode.Hive.Set | src/Container/HiveNode.php:147-177 | the new state and result are `HiveStore.Set` of the old state |
| HiveNode.Hive.StoreValue | src/Container/HiveNode.php:176 | the new state is `PutValue` of the old |
| HiveNode.Hive.Declare | src/Container/DeclarativeHiveNode.php:36-58 | the new state and result are `HiveStore.Declare` of the old state |
| HiveNode.Hive.StoreDeclaration | src/Container/DeclarativeHiveNode.php:57 | only the node's declaration for the token changes |
| AbstractLoader.StrPos | src/Loader/AbstractLoader.php:101 | `strpos` finds the first occurrence, or reports that there is none |
| AbstractLoader.DetachRoot | src/Loader/AbstractLoader.php:73-76 | `str_replace` leaves no root identifier, keeps every other character, and shortens the key by the number of identifiers |
| AbstractLoader.HasValueAsIsIdentifier | src/Loader/AbstractLoader.php:99-102 | true exactly when the key starts with `!` |
| AbstractLoader.DetachValueAsIs | src/Loader/AbstractLoader.php:84-91 | one leading `!` is removed, and a key without it is returned unchanged |
| AbstractLoader.DetachRootAppend | src/Loader/AbstractLoader.php:73-76 | the replacement works piece by piece over a concatenation |
| AbstractLoader.DetachRootIdle | src/Loader/AbstractLoader.php:73-76 | a key without `~` is left alone |
| AbstractLoader.DetachRootEverywhere | src/Loader/AbstractLoader.php:73-76 | `~` is removed anywhere in the key, not only in front |
| AbstractLoader.DetachValueAsIsOnce | src/Loader/AbstractLoader.php:84-91 | only the first `!` is removed |
| AbstractLoader.Inject | src/Loader/AbstractLoader.php:51-64 | injecting keeps the store valid, removes no node and no link, leaves declarations alone, and changes nothing for an empty array |
| AbstractLoader.InjectEntry | src/Loader/AbstractLoader.php:53-63 | one entry keeps the store valid, removes no node and no link, and leaves declarations alone |
| AbstractLoader.InjectAppend | src/Loader/AbstractLoader.php:53 | entries are handled in order, and an exception ends the walk |
| AbstractLoader.InjectKeepsKeys | src/Loader/AbstractLoader.php:51-64 | loading never removes a node or a stored key; it only adds and overwrites |
| AbstractLoader.InjectEntryKeepsKeys | src/Loader/AbstractLoader.php:53-63 | the same for one entry, whether it goes into a child node or is stored with `set` |
| AbstractLoader.ValueAsIsArray | src/Loader/AbstractLoader.php:54-62 | `!k => [...]` stores the array itself under `k` |
| AbstractLoader.InjectIntoChild | src/Loader/AbstractLoader.php:56-58 | an array under a plain key is injected into the child of that name, made when missing |
| AbstractLoader.EmptyArrayMakesNode | src/Loader/AbstractLoader.php:56-58 | even an empty array makes its node |
| AbstractLoader.InjectPlainValue | src/Loader/AbstractLoader.php:60-62 | a scalar under a plain key is stored in this node under that key |
| AbstractLoader.NestedArrayIsPath | src/Loader/AbstractLoader.php:51-64 | for plain keys `k1` and `k2` without `~` and without a leading `!`, and a scalar `v`, `k1 => [k2 => v]` makes `get('k1.k2')` yield `v`, unless an existing child `k1` declares `k2` |
| AbstractLoader.LoadThenGet | src/Loader/AbstractLoader.php:51-64 | after loading `k => v` with a scalar `v` under a plain key `k` without `~` and without a leading `!`, into a node that declares nothing for `k`, `get(k)` yields `v` |
| AbstractLoader.LoadFooBar | tests/AbstractLoaderTest.php:88-99 | loading `['foo' => 'bar']` into a node that declares nothing for "foo" makes `get('foo')` yield "bar" |
| AbstractLoader.ListRejected | src/Loader/AbstractLoader.php:53-54 | a list, whose first key is 0, throws UnknownEntityException before anything is stored |
| AbstractLoader.ZeroEntryRejected | src/Loader/AbstractLoader.php:53-62 | the entry under key 0 throws and changes nothing |
| AbstractLoader.Loader.constructor | src/Loader/ArrayLoader.php:26-35 | the loader holds the given array |
| AbstractLoader.Loader.InjectInto | src/Loader/AbstractLoader.php:30-33 | the new state and result are `Inject` of the old state with the loaded array |
| AbstractLoader.Loader.InjectData | src/Loader/AbstractLoader.php:51-64 | the loop, recursing into nested arrays, leaves the state and result of `Inject` |

## Left out

- Observers are counted, not stored: `attach` adds one to the queue's count, and
  `update` appends an event. What an observer does with an event is not part of
  this model, and neither are `detach`, `getObservers` or the observation
  container.
- `getQueryDivider` and `getRootIdentifier` are the constants `Divider` and
  `RootDescriptor`. Both are single characters here, so `str_replace` and
  `strpos` are modelled on one character.
- `getName` and `getParentNode` are field reads of the node state. `HiveIdentity`
  only builds that state.
- `HierarchyNegotiationTrait` is not part of this model. `HiveNode` does not use
  the trait; it defines its own `node`, `marshalNodeKey` and
  `marshalNodeInstance`, and those are the ones modelled.
- `getMinimumClassLevel` and the interfaces are left out. The class of a node is
  the flag `declarative`, which children copy from their parent.
- Closures are values that yield a fixed value. Side effects of a closure or a
  declaration callback are left out, and so is a callback that throws.
- The tests call `entity` and `defaultEntity`. No such methods exist in the core,
  so they are not modelled; `HiveIdentity` keeps the default declaration, but
  nothing in the core reads it.
- `declare` destructures the query object as an array with the keys `token`,
  `query` and `root` (src/Container/DeclarativeHiveNode.php:40). `HiveQuery`
  implements no `ArrayAccess`, so PHP as written throws an `Error` ("Cannot use
  object of type HiveQuery as array") there, and every `declare` fails. The
  model follows the evident intent instead: the last token, the node path in
  front of it, and the root flag.
- `load` of `ArrayLoader` and `JsonLoader` is left out: it reads a file or
  checks a PHP type. The `Loader` constructor stands in for a successful `load`.
- A PHP array holds each key once; a `seq<Entry>` may repeat a key, and the
  model then handles both entries in order, as a second `set` of the key would.
- PHP arrays with integer keys are modelled as entries with the decimal string
  of the key, which is what `detachRoot` turns them into.
- Every PHP string is a sequence of characters. `strtolower` and `trim` act on
  ASCII characters only, as the PHP functions do on bytes; there is no encoding.
- HiveStore.Node: states validity, growth, the error kinds and the empty-query
  rejection; `NodeKeepsValues` adds, for every key, that no value is written
  and that new nodes hold none. The node found or created, and how many nodes
  are made, are stated for plain paths by `NodeFinds`, `NodeCreates` and
  `NodeCreatesOnlyMissing`, not for keys with an inner `~` (routed to the
  root part-way down) or with padded or "0" tokens.
- HiveStore.NodeQuery: the same as `HiveStore.Node`, for a parsed query.
- HiveStore.Get: states the frame (only events change), the error kind and the
  empty-query rejection. The value read is stated for plain paths by `GetWalks`,
  `GetOne` and `SetThenGet`, not for keys with an inner `~` or with padded or
  "0" tokens (`PaddedKeySetNotGot` covers one padded key).
- HiveStore.GetQuery: the same as `HiveStore.Get`, for a parsed query.
- HiveStore.Has: states that nothing changes, the error kinds and the
  empty-query rejection. The answer is stated for plain paths by `HasWalks`, not
  for keys with an inner `~` or with padded or "0" tokens.
- HiveStore.HasQuery: the same as `HiveStore.Has`, for a parsed query.
- HiveStore.Declare: states validity, that no event fires and the root-query
  rejection. Where the callback lands is stated for plain paths by `DeclareOne`
  and `DeclareWalk`, not for keys with an inner `~` or with padded or "0"
  tokens.
- HiveStore.DeclareQuery: the same as `HiveStore.Declare`, for a parsed query.
- HiveStore.Set: states validity, that no node or link is removed, and the
  empty-query rejection. For every key, `SetWritesAtMostOne` adds that a `set`
  that succeeds changes exactly one value and one that throws changes none.
  Which value is written, and where, is stated for plain paths by `SetWalks`,
  `SetWritesOne`, `SetThenGet` and `SetOne`, not for keys with an inner `~`
  (routed to the root part-way down) or with empty or padded tokens.
- HiveStore.SetQuery: the same as `HiveStore.Set`, for a parsed query
  (`SetQueryWritesAtMostOne` is its frame).
- AbstractLoader.Inject: states validity and that no node or link is removed;
  `InjectKeepsKeys` adds that no stored key is removed. What is stored is
  stated for one- and two-level arrays under plain keys by `LoadThenGet` and
  `NestedArrayIsPath`, not for deeper arrays, keys with `~` or `!`, or keys
  that are not plain.
- AbstractLoader.InjectEntry: the same as `AbstractLoader.Inject`, for one entry
  (`InjectEntryKeepsKeys` is its frame).
