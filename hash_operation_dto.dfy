/**
 * The data-access component: create-if-absent and delete-if-present under
 * optimistic locking (WATCH, existence check, MULTI, one command, EXEC, retry
 * on a refused EXEC up to three attempts), the hash read, and the mapping of
 * search documents to employees.
 */
module Dto {
  import opened Wrappers
  import opened Entity
  import opened JavaLong
  import opened ConstantUtils
  import opened Redis

  /** The attempt bound of both retry loops. */
  const MaxAttempts: nat := 3

  const AlreadyExistMessage: string := "Employee id already exists"

  function NotFoundMessage(id: string): string
  {
    "Employee with id " + id + " not found"
  }

  /** The caller-visible result of a session, the keyspace after it and how many EXECs it issued. */
  datatype Run = Run(result: Result<bool, Failure>, data: Data, execs: nat)

  /**
   * The field map a create stores: `name`, `department` and `salary`.
   * `Map.of` refuses null values, so a missing name or department gives `None`
   * (a `NullPointerException`).
   */
  function EmployeeHash(e: Employee): (h: Option<Hash>)
    ensures h.Some? <==> e.name.Some? && e.department.Some?
    ensures h.Some? ==> h.value.Keys == {"name", "department", "salary"}
    ensures h.Some? ==> h.value["name"] == Text(e.name.value) && h.value["department"] == Text(e.department.value)
    ensures h.Some? ==> h.value["salary"] == Number(e.salary)
  {
    if e.name.None? || e.department.None? then None
    else Some(map["name" := Text(e.name.value), "department" := Text(e.department.value), "salary" := Number(e.salary)])
  }

  /**
   * The create loop from attempt number `attempt` on, over keyspace `data`:
   * after a fresh watch, an existing key ends the session with
   * `AlreadyExist`; otherwise the fields are queued and EXEC decides between
   * success, a retry on a refusal, and a `TransactionFailure` on a fault.
   * Three refusals end the session with `false`.
   */
  function CreateFrom(data: Data, key: string, fields: Option<Hash>, outcomes: seq<ExecOutcome>, attempt: nat): (r: Run)
    requires attempt <= MaxAttempts <= |outcomes|
    ensures attempt <= r.execs <= MaxAttempts
    ensures r.result == Ok(true) ==> fields.Some? && key in r.data && r.data[key] == fields.value
    ensures r.result == Err(AlreadyExist(AlreadyExistMessage)) ==> key in r.data
    decreases MaxAttempts - attempt
  {
    if attempt == MaxAttempts then Run(Ok(false), data, attempt)
    else if key in data then Run(Err(AlreadyExist(AlreadyExistMessage)), data, attempt)
    else if fields.None? then Run(Err(TransactionFailure), data, attempt)
    else
      match outcomes[attempt]
      case Applied => Run(Ok(true), data[key := fields.value], attempt + 1)
      case Refused(rival) => CreateFrom(Rival(data, key, rival), key, fields, outcomes, attempt + 1)
      case Faulted => Run(Err(TransactionFailure), data, attempt + 1)
  }

  /** `savetoHash(value)` as a whole: a null id fails before any session starts. */
  function SaveSpec(data: Data, value: Employee, outcomes: seq<ExecOutcome>): (r: Run)
    requires MaxAttempts <= |outcomes|
    ensures value.id.None? ==> r == Run(Err(NullPointer), data, 0)
  {
    if value.id.None? then Run(Err(NullPointer), data, 0)
    else CreateFrom(data, CreateHash(LongToString(value.id.value)), EmployeeHash(value), outcomes, 0)
  }

  /**
   * The delete loop from attempt number `attempt` on: the inverse check (a
   * missing key ends the session with `NotFound`), one queued DEL, and the
   * same retry rule as the create loop.
   */
  function DeleteFrom(data: Data, key: string, id: string, outcomes: seq<ExecOutcome>, attempt: nat): (r: Run)
    requires attempt <= MaxAttempts <= |outcomes|
    ensures attempt <= r.execs <= MaxAttempts
    ensures r.result == Ok(true) ==> key !in r.data
    ensures r.result == Err(NotFound(NotFoundMessage(id))) ==> key !in r.data
    decreases MaxAttempts - attempt
  {
    if attempt == MaxAttempts then Run(Ok(false), data, attempt)
    else if key !in data then Run(Err(NotFound(NotFoundMessage(id))), data, attempt)
    else
      match outcomes[attempt]
      case Applied => Run(Ok(true), data - {key}, attempt + 1)
      case Refused(rival) => DeleteFrom(Rival(data, key, rival), key, id, outcomes, attempt + 1)
      case Faulted => Run(Err(TransactionFailure), data, attempt + 1)
  }

  /** `deleteEmployeeById(id)` as a whole. */
  function DeleteSpec(data: Data, id: string, outcomes: seq<ExecOutcome>): (r: Run)
    requires MaxAttempts <= |outcomes|
    ensures CreateHash(id) !in data ==> r == Run(Err(NotFound(NotFoundMessage(id))), data, 0)
  {
    DeleteFrom(data, CreateHash(id), id, outcomes, 0)
  }

  // ---------------------------------------------------------------- create

  /** The create loop touches no key but its own. */
  lemma {:induction false} CreateFromFrame(data: Data, key: string, fields: Option<Hash>, outcomes: seq<ExecOutcome>, attempt: nat)
    requires attempt <= MaxAttempts <= |outcomes|
    ensures forall k :: k != key ==> (k in CreateFrom(data, key, fields, outcomes, attempt).data <==> k in data)
    ensures forall k :: k != key && k in data ==> CreateFrom(data, key, fields, outcomes, attempt).data[k] == data[k]
    decreases MaxAttempts - attempt
  {
    if attempt < MaxAttempts && key !in data && fields.Some? && outcomes[attempt].Refused? {
      CreateFromFrame(Rival(data, key, outcomes[attempt].rival), key, fields, outcomes, attempt + 1);
    }
  }

  /**
   * At most three EXECs; only refused ones are followed by another attempt;
   * `false` means the bound was reached; `true` follows an applied EXEC; a
   * transaction failure follows a fault (or the null-field check) and ends the loop.
   */
  lemma {:induction false} CreateFromAttempts(data: Data, key: string, fields: Option<Hash>, outcomes: seq<ExecOutcome>, attempt: nat)
    requires attempt <= MaxAttempts <= |outcomes|
    ensures var r := CreateFrom(data, key, fields, outcomes, attempt);
      && attempt <= r.execs <= MaxAttempts
      && (forall i :: attempt <= i < r.execs - 1 ==> outcomes[i].Refused?)
      && (r.result == Ok(false) ==> r.execs == MaxAttempts && (attempt < MaxAttempts ==> outcomes[MaxAttempts - 1].Refused?))
      && (r.result == Ok(true) ==> attempt < r.execs && outcomes[r.execs - 1] == Applied)
      && (r.result == Err(TransactionFailure) ==> fields.None? || (attempt < r.execs && outcomes[r.execs - 1] == Faulted))
    decreases MaxAttempts - attempt
  {
    if attempt < MaxAttempts && key !in data && fields.Some? && outcomes[attempt].Refused? {
      CreateFromAttempts(Rival(data, key, outcomes[attempt].rival), key, fields, outcomes, attempt + 1);
    }
  }

  /**
   * What the loop leaves under its own key: the fields after success; a hash
   * after `AlreadyExist` (the one found by the check); nothing after a
   * transaction failure; what the last rival left after `false`.
   */
  lemma {:induction false} CreateFromKey(data: Data, key: string, fields: Option<Hash>, outcomes: seq<ExecOutcome>, attempt: nat)
    requires attempt < MaxAttempts <= |outcomes|
    ensures var r := CreateFrom(data, key, fields, outcomes, attempt);
      && (r.result == Ok(true) ==> fields.Some? && key in r.data && r.data[key] == fields.value)
      && (r.result == Err(AlreadyExist(AlreadyExistMessage)) ==> key in r.data)
      && (r.result == Err(TransactionFailure) ==> key !in r.data)
      && (r.result == Ok(false) ==>
            outcomes[MaxAttempts - 1].Refused? && Rival(r.data, key, outcomes[MaxAttempts - 1].rival) == r.data)
    decreases MaxAttempts - attempt
  {
    if key !in data && fields.Some? && outcomes[attempt].Refused? && attempt + 1 < MaxAttempts {
      CreateFromKey(Rival(data, key, outcomes[attempt].rival), key, fields, outcomes, attempt + 1);
    }
  }

  /** Every result but `AlreadyExist` ends the loop; the loop ends with one of four results. */
  lemma {:induction false} CreateFromResults(data: Data, key: string, fields: Option<Hash>, outcomes: seq<ExecOutcome>, attempt: nat)
    requires attempt <= MaxAttempts <= |outcomes|
    ensures CreateFrom(data, key, fields, outcomes, attempt).result in
      {Ok(true), Ok(false), Err(AlreadyExist(AlreadyExistMessage)), Err(TransactionFailure)}
    decreases MaxAttempts - attempt
  {
    if attempt < MaxAttempts && key !in data && fields.Some? && outcomes[attempt].Refused? {
      CreateFromResults(Rival(data, key, outcomes[attempt].rival), key, fields, outcomes, attempt + 1);
    }
  }

  /** A key that exists at the check ends the session at once, with the keyspace untouched. */
  lemma CreateFromExisting(data: Data, key: string, fields: Option<Hash>, outcomes: seq<ExecOutcome>, attempt: nat)
    requires attempt < MaxAttempts <= |outcomes|
    requires key in data
    ensures CreateFrom(data, key, fields, outcomes, attempt) == Run(Err(AlreadyExist(AlreadyExistMessage)), data, attempt)
  {
  }

  /** An absent key, a complete hash and an applied EXEC: `true`, with exactly the fields stored under the key. */
  lemma CreateFromApplied(data: Data, key: string, fields: Option<Hash>, outcomes: seq<ExecOutcome>, attempt: nat)
    requires attempt < MaxAttempts <= |outcomes|
    requires key !in data && fields.Some? && outcomes[attempt] == Applied
    ensures CreateFrom(data, key, fields, outcomes, attempt) == Run(Ok(true), data[key := fields.value], attempt + 1)
  {
  }

  /**
   * The check is repeated after every refusal: a key that a rival creates
   * between two attempts gives `AlreadyExist`, not `false`.
   */
  lemma CreateFromKeyAppears(data: Data, key: string, fields: Option<Hash>, outcomes: seq<ExecOutcome>, attempt: nat, h: Hash)
    requires attempt + 1 < MaxAttempts <= |outcomes|
    requires key !in data && fields.Some?
    requires outcomes[attempt] == Refused(Some(h))
    ensures CreateFrom(data, key, fields, outcomes, attempt) ==
            Run(Err(AlreadyExist(AlreadyExistMessage)), data[key := h], attempt + 1)
  {
  }

  /**
   * Refusals that leave the key absent, all the way to the bound: the session
   * returns `false` after exactly three EXECs and the keyspace is unchanged.
   */
  lemma {:induction false} CreateFromExhausted(data: Data, key: string, fields: Option<Hash>, outcomes: seq<ExecOutcome>, attempt: nat)
    requires attempt <= MaxAttempts <= |outcomes|
    requires key !in data && fields.Some?
    requires forall i :: attempt <= i < MaxAttempts ==> outcomes[i] == Refused(None)
    ensures CreateFrom(data, key, fields, outcomes, attempt) == Run(Ok(false), data, MaxAttempts)
    decreases MaxAttempts - attempt
  {
    if attempt < MaxAttempts {
      assert Rival(data, key, None) == data;
      CreateFromExhausted(data, key, fields, outcomes, attempt + 1);
    }
  }

  // ---------------------------------------------------------------- delete

  /** The delete loop touches no key but its own. */
  lemma {:induction false} DeleteFromFrame(data: Data, key: string, id: string, outcomes: seq<ExecOutcome>, attempt: nat)
    requires attempt <= MaxAttempts <= |outcomes|
    ensures forall k :: k != key ==> (k in DeleteFrom(data, key, id, outcomes, attempt).data <==> k in data)
    ensures forall k :: k != key && k in data ==> DeleteFrom(data, key, id, outcomes, attempt).data[k] == data[k]
    decreases MaxAttempts - attempt
  {
    if attempt < MaxAttempts && key in data && outcomes[attempt].Refused? {
      DeleteFromFrame(Rival(data, key, outcomes[attempt].rival), key, id, outcomes, attempt + 1);
    }
  }

  /** The attempt bound and retry rule of the delete loop, as for the create loop. */
  lemma {:induction false} DeleteFromAttempts(data: Data, key: string, id: string, outcomes: seq<ExecOutcome>, attempt: nat)
    requires attempt <= MaxAttempts <= |outcomes|
    ensures var r := DeleteFrom(data, key, id, outcomes, attempt);
      && attempt <= r.execs <= MaxAttempts
      && (forall i :: attempt <= i < r.execs - 1 ==> outcomes[i].Refused?)
      && (r.result == Ok(false) ==> r.execs == MaxAttempts && (attempt < MaxAttempts ==> outcomes[MaxAttempts - 1].Refused?))
      && (r.result == Ok(true) ==> attempt < r.execs && outcomes[r.execs - 1] == Applied)
      && (r.result == Err(TransactionFailure) ==> attempt < r.execs && outcomes[r.execs - 1] == Faulted)
    decreases MaxAttempts - attempt
  {
    if attempt < MaxAttempts && key in data && outcomes[attempt].Refused? {
      DeleteFromAttempts(Rival(data, key, outcomes[attempt].rival), key, id, outcomes, attempt + 1);
    }
  }

  /**
   * What the delete loop leaves under its key: nothing after success or
   * `NotFound`; the hash it saw after a transaction failure; what the last
   * rival left after `false`.
   */
  lemma {:induction false} DeleteFromKey(data: Data, key: string, id: string, outcomes: seq<ExecOutcome>, attempt: nat)
    requires attempt < MaxAttempts <= |outcomes|
    ensures var r := DeleteFrom(data, key, id, outcomes, attempt);
      && (r.result == Ok(true) ==> key !in r.data)
      && (r.result == Err(NotFound(NotFoundMessage(id))) ==> key !in r.data)
      && (r.result == Err(TransactionFailure) ==> key in r.data)
      && (r.result == Ok(false) ==>
            outcomes[MaxAttempts - 1].Refused? && Rival(r.data, key, outcomes[MaxAttempts - 1].rival) == r.data)
    decreases MaxAttempts - attempt
  {
    if key in data && outcomes[attempt].Refused? && attempt + 1 < MaxAttempts {
      DeleteFromKey(Rival(data, key, outcomes[attempt].rival), key, id, outcomes, attempt + 1);
    }
  }

  /** The delete loop ends with one of four results. */
  lemma {:induction false} DeleteFromResults(data: Data, key: string, id: string, outcomes: seq<ExecOutcome>, attempt: nat)
    requires attempt <= MaxAttempts <= |outcomes|
    ensures DeleteFrom(data, key, id, outcomes, attempt).result in
      {Ok(true), Ok(false), Err(NotFound(NotFoundMessage(id))), Err(TransactionFailure)}
    decreases MaxAttempts - attempt
  {
    if attempt < MaxAttempts && key in data && outcomes[attempt].Refused? {
      DeleteFromResults(Rival(data, key, outcomes[attempt].rival), key, id, outcomes, attempt + 1);
    }
  }

  /** A present key and an applied EXEC: `true`, with the key removed and every other key kept. */
  lemma DeleteFromApplied(data: Data, key: string, id: string, outcomes: seq<ExecOutcome>, attempt: nat)
    requires attempt < MaxAttempts <= |outcomes|
    requires key in data && outcomes[attempt] == Applied
    ensures DeleteFrom(data, key, id, outcomes, attempt) == Run(Ok(true), data - {key}, attempt + 1)
  {
  }

  /**
   * A rival that removes the key between two attempts gives `NotFound`, not
   * `false`.
   */
  lemma DeleteFromKeyVanishes(data: Data, key: string, id: string, outcomes: seq<ExecOutcome>, attempt: nat)
    requires attempt + 1 < MaxAttempts <= |outcomes|
    requires key in data
    requires outcomes[attempt] == Refused(None)
    ensures DeleteFrom(data, key, id, outcomes, attempt) ==
            Run(Err(NotFound(NotFoundMessage(id))), data - {key}, attempt + 1)
  {
  }

  /**
   * Refusals whose rival leaves the hash as it was, all the way to the bound:
   * `false` after exactly three EXECs and the keyspace unchanged.
   */
  lemma {:induction false} DeleteFromExhausted(data: Data, key: string, id: string, outcomes: seq<ExecOutcome>, attempt: nat)
    requires attempt <= MaxAttempts <= |outcomes|
    requires key in data
    requires forall i :: attempt <= i < MaxAttempts ==> outcomes[i] == Refused(Some(data[key]))
    ensures DeleteFrom(data, key, id, outcomes, attempt) == Run(Ok(false), data, MaxAttempts)
    decreases MaxAttempts - attempt
  {
    if attempt < MaxAttempts {
      assert Rival(data, key, Some(data[key])) == data;
      DeleteFromExhausted(data, key, id, outcomes, attempt + 1);
    }
  }

  /** The create transaction's queue, run on a keyspace without the key, stores exactly the fields. */
  lemma CreateQueueEffect(data: Data, key: string, fields: Hash)
    requires key !in data
    ensures PerformAll(data, [HSet(key, fields), Exists(key)]).0 == data[key := fields]
  {
    assert Entries(data, key) + fields == fields;
    var next := Perform(data, HSet(key, fields)).0;
    assert next == data[key := fields];
    assert [HSet(key, fields), Exists(key)][1..] == [Exists(key)];
    assert PerformAll(next, [Exists(key)]).0 == next;
  }

  // ---------------------------------------------------------------- search

  /**
   * The search result list: the i-th employee is the decode of the i-th
   * document, and there are as many employees as documents (none for no
   * documents). Which exception a failing mapping raises is stated by
   * `DecodeAllFirstFailure`.
   */
  function DecodeAll(documents: seq<Document>, parseDouble: string -> Option<Salary>): (r: Result<seq<Employee>, Failure>)
    ensures r.Ok? <==> forall i :: 0 <= i < |documents| ==> DecodeSearchDocument(documents[i], parseDouble).Ok?
    ensures r.Ok? ==> |r.value| == |documents|
    ensures r.Ok? ==> forall i :: 0 <= i < |documents| ==> r.value[i] == DecodeSearchDocument(documents[i], parseDouble).value
  {
    if documents == [] then Ok([])
    else
      match DecodeSearchDocument(documents[0], parseDouble)
      case Err(e) => Err(e)
      case Ok(employee) =>
        match DecodeAll(documents[1..], parseDouble)
        case Err(e) => Err(e)
        case Ok(rest) => Ok([employee] + rest)
  }

  /** Documents that all decode give the list of their decodes. */
  lemma {:induction false} DecodeAllSucceeds(documents: seq<Document>, parseDouble: string -> Option<Salary>, employees: seq<Employee>)
    requires |employees| == |documents|
    requires forall i :: 0 <= i < |documents| ==> DecodeSearchDocument(documents[i], parseDouble) == Ok(employees[i])
    ensures DecodeAll(documents, parseDouble) == Ok(employees)
  {
    if documents != [] {
      assert DecodeSearchDocument(documents[0], parseDouble) == Ok(employees[0]);
      forall i | 0 <= i < |documents| - 1
        ensures DecodeSearchDocument(documents[1..][i], parseDouble) == Ok(employees[1..][i])
      {
        assert documents[1..][i] == documents[i + 1] && employees[1..][i] == employees[i + 1];
      }
      DecodeAllSucceeds(documents[1..], parseDouble, employees[1..]);
      assert employees == [employees[0]] + employees[1..];
    }
  }

  /** The first document that does not decode gives the mapping's exception. */
  lemma {:induction false} DecodeAllFirstFailure(documents: seq<Document>, parseDouble: string -> Option<Salary>, n: nat)
    requires n < |documents|
    requires forall i :: 0 <= i < n ==> DecodeSearchDocument(documents[i], parseDouble).Ok?
    requires DecodeSearchDocument(documents[n], parseDouble).Err?
    ensures DecodeAll(documents, parseDouble) == Err(DecodeSearchDocument(documents[n], parseDouble).error)
  {
    if n > 0 {
      assert DecodeSearchDocument(documents[0], parseDouble).Ok?;
      assert documents[1..][n - 1] == documents[n];
      DecodeAllFirstFailure(documents[1..], parseDouble, n - 1);
    }
  }

  // ---------------------------------------------------------------- the component

  class HashOperationDto {
    /** The connection the Redis template hands to each session. */
    const store: Connection

    constructor (store: Connection)
      ensures this.store == store
    {
      this.store := store;
    }

    /**
     * `savetoHash(value)`: derives the key and runs the create session.
     * `outcomes[i]` is the server's decision on the i-th EXEC of this call.
     */
    method SaveToHash(value: Employee, outcomes: seq<ExecOutcome>) returns (r: Result<bool, Failure>)
      requires store.Idle()
      requires MaxAttempts <= |outcomes|
      modifies store
      ensures store.Idle() && store.execs >= old(store.execs)
      ensures Run(r, store.data, store.execs - old(store.execs)) == SaveSpec(old(store.data), value, outcomes)
    {
      if value.id.None? {
        return Err(NullPointer);
      }
      var constructedHash := CreateHash(LongToString(value.id.value));
      r := CreateSession(constructedHash, value, outcomes);
    }

    /** The session callback of `savetoHash`: the bounded create loop on `key`. */
    method CreateSession(key: string, value: Employee, outcomes: seq<ExecOutcome>) returns (r: Result<bool, Failure>)
      requires store.Idle()
      requires MaxAttempts <= |outcomes|
      modifies store
      ensures store.Idle() && store.execs >= old(store.execs)
      ensures Run(r, store.data, store.execs - old(store.execs)) == CreateFrom(old(store.data), key, EmployeeHash(value), outcomes, 0)
    {
      ghost var fields := EmployeeHash(value);
      var attempt := 0;
      while attempt < MaxAttempts
        invariant attempt <= MaxAttempts
        invariant store.Idle()
        invariant store.execs == old(store.execs) + attempt
        invariant CreateFrom(store.data, key, fields, outcomes, attempt) == CreateFrom(old(store.data), key, fields, outcomes, 0)
        decreases MaxAttempts - attempt
      {
        store.Watch(key);
        var present := store.HasKey(key);
        if present == Some(true) {
          store.Unwatch();
          return Err(AlreadyExist(AlreadyExistMessage));
        }
        ghost var before := store.data;
        store.Multi();
        var employeeMap := EmployeeHash(value);
        if employeeMap.None? {
          store.Discard();
          return Err(TransactionFailure);
        }
        store.PutAll(key, employeeMap.value);
        var _ := store.HasKey(key);
        assert store.queue == [HSet(key, employeeMap.value), Exists(key)];
        var reply := store.Exec(outcomes[attempt]);
        if reply.ConnectionFault? {
          store.Discard();
          return Err(TransactionFailure);
        }
        if reply.replies != [] {
          CreateQueueEffect(before, key, employeeMap.value);
          return Ok(true);
        }
        attempt := attempt + 1;
      }
      return Ok(false);
    }

    /** `getEmployeeFromHash(id)`: the fields under the id's key, decoded. */
    method GetEmployeeFromHash(id: string, convert: Hash -> Option<Employee>) returns (r: Result<Option<Employee>, Failure>)
      ensures r == Ok(None) <==> CreateHash(id) !in store.data || store.data[CreateHash(id)] == map[]
      ensures r == DeserializeEmployee(Some(Entries(store.data, CreateHash(id))), convert)
    {
      var constructedHash := CreateHash(id);
      var employeeEntries := Entries(store.data, constructedHash);
      r := DeserializeEmployee(Some(employeeEntries), convert);
    }

    /**
     * The mapping loop of `searchEmployeeFromHash`: `documents` is what the
     * index search returned, decoded one by one into a fresh list.
     */
    method SearchEmployeeFromHash(documents: seq<Document>, parseDouble: string -> Option<Salary>) returns (r: Result<seq<Employee>, Failure>)
      ensures r == DecodeAll(documents, parseDouble)
    {
      var employees: seq<Employee> := [];
      for n := 0 to |documents|
        invariant |employees| == n
        invariant forall i :: 0 <= i < n ==> DecodeSearchDocument(documents[i], parseDouble) == Ok(employees[i])
      {
        var employee := DecodeSearchDocument(documents[n], parseDouble);
        if employee.Err? {
          DecodeAllFirstFailure(documents, parseDouble, n);
          return Err(employee.error);
        }
        employees := employees + [employee.value];
      }
      DecodeAllSucceeds(documents, parseDouble, employees);
      return Ok(employees);
    }

    /**
     * `deleteEmployeeById(id)`: derives the key and runs the delete session.
     * `outcomes[i]` is the server's decision on the i-th EXEC of this call.
     */
    method DeleteEmployeeById(id: string, outcomes: seq<ExecOutcome>) returns (r: Result<bool, Failure>)
      requires store.Idle()
      requires MaxAttempts <= |outcomes|
      modifies store
      ensures store.Idle() && store.execs >= old(store.execs)
      ensures Run(r, store.data, store.execs - old(store.execs)) == DeleteSpec(old(store.data), id, outcomes)
    {
      var createHash := CreateHash(id);
      r := DeleteSession(createHash, id, outcomes);
    }

    /** The session callback of `deleteEmployeeById`: the bounded delete loop on `key`. */
    method DeleteSession(key: string, id: string, outcomes: seq<ExecOutcome>) returns (r: Result<bool, Failure>)
      requires store.Idle()
      requires MaxAttempts <= |outcomes|
      modifies store
      ensures store.Idle() && store.execs >= old(store.execs)
      ensures Run(r, store.data, store.execs - old(store.execs)) == DeleteFrom(old(store.data), key, id, outcomes, 0)
    {
      var attempt := 0;
      while attempt < MaxAttempts
        invariant attempt <= MaxAttempts
        invariant store.Idle()
        invariant store.execs == old(store.execs) + attempt
        invariant DeleteFrom(store.data, key, id, outcomes, attempt) == DeleteFrom(old(store.data), key, id, outcomes, 0)
        decreases MaxAttempts - attempt
      {
        store.Watch(key);
        var present := store.HasKey(key);
        if present == Some(false) {
          store.Unwatch();
          return Err(NotFound(NotFoundMessage(id)));
        }
        store.Multi();
        store.Delete(key);
        var reply := store.Exec(outcomes[attempt]);
        if reply.ConnectionFault? {
          store.Discard();
          return Err(TransactionFailure);
        }
        if reply.replies != [] {
          return Ok(true);
        }
        attempt := attempt + 1;
      }
      return Ok(false);
    }
  }
}
