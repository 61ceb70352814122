/**
 * The values a hive stores and the vocabulary shared by every part of the model:
 * node identifiers in the arena of nodes, observer queues, notification events
 * and the exceptions the hive raises.
 */
module HiveTypes {
  import opened Wrappers

  /** A node object, as its index in the arena of all nodes created so far. */
  type NodeId = nat

  /** An observer queue, as its index in the list of queues created so far. */
  type QueueId = nat

  /**
   * A PHP value as far as the hive cares about it. `Closure(result)` is a
   * zero-argument closure that returns `result` when it is called; a closure
   * made by `secure(c)` is `Closure(c)`. Arrays keep their entries in
   * iteration order; integer keys appear as their decimal strings.
   */
  datatype Value =
    | Null
    | Bool(b: bool)
    | Int(i: int)
    | Str(s: string)
    | Array(entries: seq<Entry>)
    | Closure(result: Value)

  datatype Entry = Entry(key: string, value: Value)

  /** A declaration callback: it receives the incoming value and returns the value to store. */
  type Callback = Value -> Value

  /** The three observation stages a node reports. */
  datatype Stage = GetStage | SetStage | DeclarationStage

  /**
   * One observation container as it is broadcast: the stage, the node that
   * fired it, and its context data (the token, absent for reads, and the value).
   */
  datatype Event = Event(stage: Stage, source: NodeId, token: Option<string>, value: Value)

  /**
   * UnknownEntity is UnknownEntityException, HiveError is HiveException,
   * NullReceiver is PHP's error for a method called on `null`, and
   * TypeMismatch is PHP's TypeError for a value that violates a declared type.
   */
  datatype Error = UnknownEntity | HiveError | NullReceiver | TypeMismatch
}
