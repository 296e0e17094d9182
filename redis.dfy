/**
 * The Redis connection the data-access component works through: the keyspace
 * of hashes, a WATCH on one key and a MULTI queue, with EXEC's outcome taken
 * from an oracle instead of a real server.
 */
module Redis {
  import opened Wrappers
  import opened Entity

  /** The keyspace: every key holds one hash. */
  type Data = map<string, Hash>

  /** A command that can be queued between MULTI and EXEC. */
  datatype Command = HSet(key: string, fields: Hash) | Exists(key: string) | Del(key: string)

  /** The reply to one command. */
  datatype Reply = Done | Flag(present: bool) | Count(removed: nat)

  /**
   * What the server does with one EXEC. `Refused` means another client wrote
   * the watched key after it was watched, leaving `rival` under it (`None`: the
   * key was removed); none of the queued commands is applied. `Faulted` means
   * the call itself failed (a connection fault) and nothing reached the keyspace.
   */
  datatype ExecOutcome = Applied | Refused(rival: Option<Hash>) | Faulted

  /** The result of EXEC as the caller sees it: one reply per queued command, none when refused. */
  datatype ExecReply = Replies(replies: seq<Reply>) | ConnectionFault

  /** HGETALL: the fields stored under `key`, an empty map when there is no such key. */
  function Entries(data: Data, key: string): (h: Hash)
    ensures key in data ==> h == data[key]
    ensures key !in data ==> h == map[]
  {
    if key in data then data[key] else map[]
  }

  /**
   * The keyspace after one command and the command's reply: HSET merges the
   * fields into the key's hash, EXISTS only answers, DEL removes the key and
   * counts it. No other key is touched.
   */
  function Perform(data: Data, c: Command): (r: (Data, Reply))
    ensures forall k :: k != c.key ==> (k in r.0 <==> k in data)
    ensures forall k :: k != c.key && k in data ==> r.0[k] == data[k]
    ensures c.HSet? ==>
      && c.key in r.0 && r.1 == Done
      && (forall f :: f in c.fields ==> f in r.0[c.key] && r.0[c.key][f] == c.fields[f])
      && (forall f :: f in Entries(data, c.key) && f !in c.fields ==> f in r.0[c.key] && r.0[c.key][f] == data[c.key][f])
      && (forall f :: f in r.0[c.key] ==> f in c.fields || f in Entries(data, c.key))
    ensures c.Exists? ==> r == (data, Flag(c.key in data))
    ensures c.Del? ==> c.key !in r.0 && r.1 == Count(if c.key in data then 1 else 0)
  {
    match c
    case HSet(k, fields) => (data[k := Entries(data, k) + fields], Done)
    case Exists(k) => (data, Flag(k in data))
    case Del(k) => (data - {k}, Count(if k in data then 1 else 0))
  }

  /** The keyspace after a queue of commands, applied in order, and their replies. */
  function PerformAll(data: Data, queue: seq<Command>): (r: (Data, seq<Reply>))
    ensures |r.1| == |queue|
    decreases |queue|
  {
    if queue == [] then (data, [])
    else
      var (next, reply) := Perform(data, queue[0]);
      var (last, replies) := PerformAll(next, queue[1..]);
      (last, [reply] + replies)
  }

  /** The keyspace after another client leaves `rival` under `key`. */
  function Rival(data: Data, key: string, rival: Option<Hash>): (r: Data)
    ensures key in r <==> rival.Some?
    ensures rival.Some? ==> r[key] == rival.value
    ensures forall k :: k != key ==> (k in r <==> k in data)
    ensures forall k :: k != key && k in r ==> r[k] == data[k]
  {
    if rival.Some? then data[key := rival.value] else data - {key}
  }

  class Connection {
    /** The keyspace of the server. */
    var data: Data
    /** The key this connection watches, if any. */
    var watched: Option<string>
    /** True between MULTI and EXEC or DISCARD. */
    var queuing: bool
    /** The commands queued since MULTI. */
    var queue: seq<Command>
    /** How many EXEC calls this connection has issued. */
    ghost var execs: nat

    /** Neither a watch nor a transaction is open. */
    ghost predicate Idle()
      reads this
    {
      watched.None? && !queuing && queue == []
    }

    constructor (initial: Data)
      ensures data == initial && Idle() && execs == 0
    {
      data := initial;
      watched := None;
      queuing := false;
      queue := [];
      execs := 0;
    }

    /** WATCH key. */
    method Watch(key: string)
      requires !queuing
      requires watched.None? || watched == Some(key)
      modifies this
      ensures watched == Some(key)
      ensures data == old(data) && queuing == old(queuing) && queue == old(queue) && execs == old(execs)
    {
      watched := Some(key);
    }

    /** UNWATCH. */
    method Unwatch()
      modifies this
      ensures watched == None
      ensures data == old(data) && queuing == old(queuing) && queue == old(queue) && execs == old(execs)
    {
      watched := None;
    }

    /** EXISTS key: answered at once outside a transaction, queued (and answered `null`) inside one. */
    method HasKey(key: string) returns (r: Option<bool>)
      modifies this
      ensures !old(queuing) ==> r == Some(key in data) && queue == old(queue)
      ensures old(queuing) ==> r == None && queue == old(queue) + [Exists(key)]
      ensures data == old(data) && watched == old(watched) && queuing == old(queuing) && execs == old(execs)
    {
      if queuing {
        queue := queue + [Exists(key)];
        r := None;
      } else {
        r := Some(key in data);
      }
    }

    /** MULTI. */
    method Multi()
      requires !queuing
      modifies this
      ensures queuing && queue == []
      ensures data == old(data) && watched == old(watched) && execs == old(execs)
    {
      queuing := true;
      queue := [];
    }

    /** HSET of every field of `fields`: applied at once outside a transaction, queued inside one. */
    method PutAll(key: string, fields: Hash)
      modifies this
      ensures !old(queuing) ==> data == Perform(old(data), HSet(key, fields)).0 && queue == old(queue)
      ensures old(queuing) ==> data == old(data) && queue == old(queue) + [HSet(key, fields)]
      ensures watched == old(watched) && queuing == old(queuing) && execs == old(execs)
    {
      if queuing {
        queue := queue + [HSet(key, fields)];
      } else {
        data := Perform(data, HSet(key, fields)).0;
      }
    }

    /** DEL key: applied at once outside a transaction, queued inside one. */
    method Delete(key: string)
      modifies this
      ensures !old(queuing) ==> data == old(data) - {key} && queue == old(queue)
      ensures old(queuing) ==> data == old(data) && queue == old(queue) + [Del(key)]
      ensures watched == old(watched) && queuing == old(queuing) && execs == old(execs)
    {
      if queuing {
        queue := queue + [Del(key)];
      } else {
        data := data - {key};
      }
    }

    /**
     * EXEC, with the server's decision given by `outcome`. Applied: the queue
     * runs atomically and one reply per command comes back. Refused: nothing of
     * the queue runs, the reply list is empty, and the watched key holds what
     * the rival client left. Either way the transaction and the watch end. A
     * fault leaves everything as it was, for DISCARD to clean up.
     */
    method Exec(outcome: ExecOutcome) returns (r: ExecReply)
      requires queuing
      requires outcome.Refused? ==> watched.Some?
      modifies this
      ensures execs == old(execs) + 1
      ensures outcome == Applied ==>
        Idle() && data == PerformAll(old(data), old(queue)).0 && r == Replies(PerformAll(old(data), old(queue)).1)
      ensures outcome.Refused? ==>
        Idle() && data == Rival(old(data), old(watched).value, outcome.rival) && r == Replies([])
      ensures outcome == Faulted ==>
        r == ConnectionFault && data == old(data) && watched == old(watched) && queuing && queue == old(queue)
    {
      execs := execs + 1;
      match outcome
      case Applied =>
        var (next, replies) := PerformAll(data, queue);
        data := next;
        r := Replies(replies);
        watched, queuing, queue := None, false, [];
      case Refused(rival) =>
        data := Rival(data, watched.value, rival);
        r := Replies([]);
        watched, queuing, queue := None, false, [];
      case Faulted =>
        r := ConnectionFault;
    }

    /** DISCARD: drops the queue and the watch; the keyspace is untouched. */
    method Discard()
      modifies this
      ensures Idle()
      ensures data == old(data) && execs == old(execs)
    {
      watched, queuing, queue := None, false, [];
    }
  }
}
