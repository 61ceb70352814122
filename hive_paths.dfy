/**
 * What `getPath` reports: the names of the ancestors below the root, the
 * node's own name last, joined with the divider.
 */
module HivePaths {
  import opened Wrappers
  import opened HiveTypes
  import opened HiveQuery
  import opened HiveStore
  import opened HiveProperties

  /** Filtering the stack of a node keeps every name, since no stored name is empty. */
  lemma {:induction false} PresentAncestry(s: Store, id: NodeId)
    requires Valid(s) && id in s.nodes
    ensures Present(Ancestry(s, id)) == PathNames(s, id)
    decreases id
  {
    match s.nodes[id].parent
    case None =>
    case Some(p) =>
      assert NodeValid(s, id);
      PresentAncestry(s, p);
      var stack := Ancestry(s, id);
      assert stack[..|stack| - 1] == Ancestry(s, p);
  }

  /** The trailing null token `getPath` passes is filtered out again. */
  lemma PresentDropsNone(stack: seq<Option<string>>)
    ensures Present(stack + [None]) == Present(stack)
  {
    assert (stack + [None])[..|stack|] == stack;
  }

  /** A root has no path: `getPath` on it returns null where a string is declared, a TypeError. */
  lemma GetPathOfRoot(s: Store, id: NodeId)
    requires Valid(s) && id in s.nodes && s.nodes[id].parent.None?
    ensures MarshalCurrentPath(s, id, None) == Err(TypeMismatch)
  {
    assert Ancestry(s, id) + [None] == [None];
    assert Present([None]) == Present([]);
  }

  /** Below the root, `getPath` joins the names from the root down, the node's own name last. */
  lemma GetPathJoinsNames(s: Store, id: NodeId)
    requires Valid(s) && id in s.nodes && s.nodes[id].parent.Some?
    ensures MarshalCurrentPath(s, id, None) == Ok(JoinPath(PathNames(s, id)))
    ensures |PathNames(s, id)| > 0
  {
    PresentDropsNone(Ancestry(s, id));
    PresentAncestry(s, id);
    var names := PathNames(s, id);
    PlainPathNotEmpty(names);
  }

  /** With a token, the token comes last; an empty token ("" or "0") is filtered out like a null. */
  lemma MarshalWithToken(s: Store, id: NodeId, token: string)
    requires Valid(s) && id in s.nodes && !PhpEmpty(token)
    ensures MarshalCurrentPath(s, id, Some(token)) == Ok(JoinPath(PathNames(s, id) + [token]))
  {
    var stack := Ancestry(s, id) + [Some(token)];
    assert stack[..|stack| - 1] == Ancestry(s, id);
    PresentAncestry(s, id);
    var names := PathNames(s, id) + [token];
    PlainPathNotEmpty(names);
  }

  /** A child's path names are its parent's, then its key trimmed. */
  lemma ChildPath(s: Store, id: NodeId, k: string)
    requires Valid(s) && id in s.nodes && k in s.nodes[id].nodes
    ensures s.nodes[id].nodes[k] in s.nodes
    ensures PathNames(s, s.nodes[id].nodes[k]) == PathNames(s, id) + [Trim(k, Whitespace)]
  {
    assert NodeValid(s, id);
    assert ChildValid(s, id, k, s.nodes[id].nodes[k]);
  }

  /** Walking down along keys that trimming leaves alone appends exactly those keys to the path names. */
  lemma {:induction false} LookupPath(s: Store, id: NodeId, ts: seq<string>)
    requires Valid(s) && id in s.nodes && Lookup(s, id, ts).Some?
    requires forall i :: 0 <= i < |ts| ==> Trim(ts[i], Whitespace) == ts[i]
    ensures PathNames(s, Lookup(s, id, ts).value) == PathNames(s, id) + ts
    decreases |ts|
  {
    if ts != [] {
      ChildPath(s, id, ts[0]);
      var c := s.nodes[id].nodes[ts[0]];
      assert Lookup(s, id, ts) == Lookup(s, c, ts[1..]);
      LookupPath(s, c, ts[1..]);
      var a := PathNames(s, id);
      assert PathNames(s, c) == a + [ts[0]];
      AppendHead(a, ts);
    }
  }

  lemma AppendHead(a: seq<string>, ts: seq<string>)
    requires |ts| > 0
    ensures a + [ts[0]] + ts[1..] == a + ts
  {
    assert [ts[0]] + ts[1..] == ts;
  }

  /** A node that `node(p, true)` materialises under a root reports `p` as its path. */
  lemma PathOfMaterialisedNode(s: Store, root: NodeId, ts: seq<string>)
    requires Valid(s) && root in s.nodes && s.nodes[root].parent.None? && IsPlainPath(ts)
    ensures var m := Node(s, root, JoinPath(ts), true);
      && m.result.Ok? && m.result.value.Some?
      && MarshalCurrentPath(m.store, m.result.value.value, None) == Ok(JoinPath(ts))
  {
    NodeCreates(s, root, ts);
    var m := Node(s, root, JoinPath(ts), true);
    var c := m.result.value.value;
    assert Keeps(s.nodes[root], m.store.nodes[root]);
    forall i | 0 <= i < |ts| ensures Trim(ts[i], Whitespace) == ts[i] {
      assert IsPlainToken(ts[i]);
      PlainTokenName(ts[i]);
    }
    LookupPath(m.store, root, ts);
    assert PathNames(m.store, c) == ts;
    GetPathJoinsNames(m.store, c);
  }
}
