/**
 * `HiveIdentity`: the validated binding of a new child node to the node that
 * creates it and to its name, handed to the child's constructor.
 */
module HiveIdentity {
  import opened Wrappers
  import opened HiveTypes
  import opened HiveQuery

  /** An identity never changes after construction: it is a value. */
  datatype Identity = Identity(node: NodeId, name: string, defaultDeclaration: Option<Callback>)

  /**
   * The constructor: raises HiveException when the name is empty after PHP's
   * `trim` ("0" counts as empty, as `empty()` says), and otherwise keeps the
   * parent as given and the name trimmed.
   */
  function NewIdentity(node: NodeId, name: string, defaultDeclaration: Option<Callback>): (r: Result<Identity, Error>)
    ensures r.Err? <==> PhpEmpty(Trim(name, Whitespace))
    ensures r.Err? ==> r.error == HiveError
    ensures r.Ok? ==>
      && GetParentNode(r.value) == node
      && GetName(r.value) == Trim(name, Whitespace)
      && GetDefaultDeclaration(r.value) == defaultDeclaration
  {
    var trimmed := Trim(name, Whitespace);
    if PhpEmpty(trimmed) then Err(HiveError) else Ok(Identity(node, trimmed, defaultDeclaration))
  }

  /** `getParentNode`. */
  function GetParentNode(identity: Identity): NodeId {
    identity.node
  }

  /** `getName`. */
  function GetName(identity: Identity): string {
    identity.name
  }

  /** `getDefaultDeclaration`: the callback given, or null. */
  function GetDefaultDeclaration(identity: Identity): Option<Callback> {
    identity.defaultDeclaration
  }

  /**
   * The getters give back what a constructed identity holds: constructing
   * again from what they return yields the same identity.
   */
  lemma GettersRebuild(node: NodeId, name: string, defaultDeclaration: Option<Callback>)
    requires NewIdentity(node, name, defaultDeclaration).Ok?
    ensures var i := NewIdentity(node, name, defaultDeclaration).value;
      NewIdentity(GetParentNode(i), GetName(i), GetDefaultDeclaration(i)) == Ok(i)
  {
    NameIsTrimmed(node, name, defaultDeclaration);
  }

  /**
   * Every name an identity reports is usable: not empty, not "0", and with no
   * whitespace left at either end, so trimming it again changes nothing.
   */
  lemma NameIsTrimmed(node: NodeId, name: string, defaultDeclaration: Option<Callback>)
    requires NewIdentity(node, name, defaultDeclaration).Ok?
    ensures var n := GetName(NewIdentity(node, name, defaultDeclaration).value);
      && !PhpEmpty(n)
      && n[0] !in Whitespace && n[|n| - 1] !in Whitespace
      && Trim(n, Whitespace) == n
  {
  }

  /** A key padded with a space, as a child key can be, yields the bare name. */
  lemma PaddedNameIsTrimmed(node: NodeId)
    ensures NewIdentity(node, "a ", None) == Ok(Identity(node, "a", None))
  {
    assert 'a' !in Whitespace;
    assert TrimStart("a ", Whitespace) == "a ";
    assert "a "[..1] == "a";
    assert TrimEnd("a", Whitespace) == "a";
    assert TrimEnd("a ", Whitespace) == "a";
  }

  /** A blank name and the name "0" are rejected. */
  lemma BlankNameRejected(node: NodeId)
    ensures NewIdentity(node, "   ", None) == Err(HiveError)
    ensures NewIdentity(node, "0", None) == Err(HiveError)
  {
    assert ' ' in Whitespace;
    assert "   "[1..] == "  " && "  "[1..] == " " && " "[1..] == "";
    assert TrimStart("   ", Whitespace) == "";
    assert '0' !in Whitespace;
    assert Trim("0", Whitespace) == "0";
  }
}
