/**
 * The service layer: three calls passed straight to the data-access component
 * and the read rule (a missing employee is an error; a found one takes its id
 * from the requested id text).
 */
module Service {
  import opened Wrappers
  import opened Entity
  import opened JavaLong
  import opened ConstantUtils
  import opened Redis
  import opened Dto

  function ReadNotFoundMessage(id: string): string
  {
    "Employee not found with id: " + id
  }

  /**
   * What `getEmployeeFromRedisHash(id)` makes of the lookup: no employee is a
   * not-found error; a found employee gets `Long.parseLong(id)` as its id and
   * keeps the name, department and salary the lookup produced.
   */
  function EmployeeOrNotFound(lookup: Result<Option<Employee>, Failure>, id: string): (r: Result<Employee, Failure>)
    ensures lookup == Ok(None) ==> r == Err(NotFound(ReadNotFoundMessage(id)))
    ensures lookup.Err? ==> r == Err(lookup.error)
    ensures lookup.Ok? && lookup.value.Some? && ParseLong(id).None? ==> r == Err(NumberFormat(id))
    ensures r.Ok? <==> lookup.Ok? && lookup.value.Some? && ParseLong(id).Some?
    ensures r.Ok? ==> r.value.id == ParseLong(id)
    ensures r.Ok? ==> r.value.name == lookup.value.value.name && r.value.department == lookup.value.value.department
    ensures r.Ok? ==> r.value.salary == lookup.value.value.salary
  {
    match lookup
    case Err(e) => Err(e)
    case Ok(None) => Err(NotFound(ReadNotFoundMessage(id)))
    case Ok(Some(employee)) =>
      match ParseLong(id)
      case None => Err(NumberFormat(id))
      case Some(n) => Ok(employee.(id := Some(n)))
  }

  /** The whole read path over keyspace `data`: hash lookup, decoding, then the read rule. */
  function ReadSpec(data: Data, id: string, convert: Hash -> Option<Employee>): (r: Result<Employee, Failure>)
    ensures CreateHash(id) !in data ==> r == Err(NotFound(ReadNotFoundMessage(id)))
    ensures r.Ok? ==> CreateHash(id) in data && data[CreateHash(id)] != map[] && convert(data[CreateHash(id)]).Some?
    ensures r.Ok? ==> r.value == convert(data[CreateHash(id)]).value.(id := ParseLong(id))
  {
    EmployeeOrNotFound(DeserializeEmployee(Some(Entries(data, CreateHash(id))), convert), id)
  }

  class HashOperationService {
    const dto: HashOperationDto

    constructor (dto: HashOperationDto)
      ensures this.dto == dto
    {
      this.dto := dto;
    }

    /** `saveEmployeeToRedisHash`: the data-access result and exceptions, unchanged. */
    method SaveEmployeeToRedisHash(employee: Employee, outcomes: seq<ExecOutcome>) returns (r: Result<bool, Failure>)
      requires dto.store.Idle()
      requires MaxAttempts <= |outcomes|
      modifies dto.store
      ensures dto.store.Idle()
      ensures r == SaveSpec(old(dto.store.data), employee, outcomes).result
      ensures dto.store.data == SaveSpec(old(dto.store.data), employee, outcomes).data
    {
      r := dto.SaveToHash(employee, outcomes);
    }

    /** `getEmployeeFromRedisHash(id)`. */
    method GetEmployeeFromRedisHash(id: string, convert: Hash -> Option<Employee>) returns (r: Result<Employee, Failure>)
      ensures r == ReadSpec(dto.store.data, id, convert)
    {
      var found := dto.GetEmployeeFromHash(id, convert);
      if found.Err? {
        return Err(found.error);
      }
      var employee := found.value;
      if employee.Some? {
        var empId := ParseLong(id);
        if empId.None? {
          return Err(NumberFormat(id));
        }
        r := Ok(employee.value.(id := empId));
      } else {
        r := Err(NotFound(ReadNotFoundMessage(id)));
      }
    }

    /** `searchEmployeeFromRedisHash`: the data-access list, unchanged. */
    method SearchEmployeeFromRedisHash(documents: seq<Document>, parseDouble: string -> Option<Salary>) returns (r: Result<seq<Employee>, Failure>)
      ensures r == DecodeAll(documents, parseDouble)
    {
      r := dto.SearchEmployeeFromHash(documents, parseDouble);
    }

    /** `deleteEmployeeHashFromRedis`: the data-access result and exceptions, unchanged. */
    method DeleteEmployeeHashFromRedis(id: string, outcomes: seq<ExecOutcome>) returns (r: Result<bool, Failure>)
      requires dto.store.Idle()
      requires MaxAttempts <= |outcomes|
      modifies dto.store
      ensures dto.store.Idle()
      ensures r == DeleteSpec(old(dto.store.data), id, outcomes).result
      ensures dto.store.data == DeleteSpec(old(dto.store.data), id, outcomes).data
    {
      r := dto.DeleteEmployeeById(id, outcomes);
    }
  }

  /**
   * Create, then read: once a create succeeds, reading the id's text returns
   * the created employee, provided the object mapper turns the stored fields
   * back into the same name, department and salary.
   */
  lemma CreateThenRead(data: Data, e: Employee, outcomes: seq<ExecOutcome>, convert: Hash -> Option<Employee>)
    requires MaxAttempts <= |outcomes|
    requires SaveSpec(data, e, outcomes).result == Ok(true)
    requires forall h :: EmployeeHash(e) == Some(h) ==> convert(h) == Some(e.(id := None))
    ensures e.id.Some?
    ensures ReadSpec(SaveSpec(data, e, outcomes).data, LongToString(e.id.value), convert) == Ok(e)
  {
    var key := CreateHash(LongToString(e.id.value));
    CreateFromKey(data, key, EmployeeHash(e), outcomes, 0);
    var stored := SaveSpec(data, e, outcomes).data;
    assert Entries(stored, key) == EmployeeHash(e).value;
    assert "name" in EmployeeHash(e).value;
    ParseLongToString(e.id.value);
  }

  /** Create on an existing id: `AlreadyExist`, and every read afterwards sees what it saw before. */
  lemma CreateExistingKeepsRecord(data: Data, e: Employee, outcomes: seq<ExecOutcome>, id: string, convert: Hash -> Option<Employee>)
    requires MaxAttempts <= |outcomes|
    requires e.id.Some? && CreateHash(LongToString(e.id.value)) in data
    ensures SaveSpec(data, e, outcomes).result == Err(AlreadyExist(AlreadyExistMessage))
    ensures ReadSpec(SaveSpec(data, e, outcomes).data, id, convert) == ReadSpec(data, id, convert)
  {
    CreateFromExisting(data, CreateHash(LongToString(e.id.value)), EmployeeHash(e), outcomes, 0);
  }

  /** Delete, then read: once a delete succeeds, reading the same id is a not-found error. */
  lemma DeleteThenRead(data: Data, id: string, outcomes: seq<ExecOutcome>, convert: Hash -> Option<Employee>)
    requires MaxAttempts <= |outcomes|
    requires DeleteSpec(data, id, outcomes).result == Ok(true)
    ensures ReadSpec(DeleteSpec(data, id, outcomes).data, id, convert) == Err(NotFound(ReadNotFoundMessage(id)))
  {
    DeleteFromKey(data, CreateHash(id), id, outcomes, 0);
  }
}
