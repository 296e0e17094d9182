/**
 * Key derivation and record decoding: the static helpers the data-access
 * component uses to name hashes and to turn stored data back into employees.
 */
module ConstantUtils {
  import opened Wrappers
  import opened Entity
  import opened JavaLong

  /** The namespace of employee hashes; the search index watches this prefix too. */
  const KeyPrefix: string := "employee:"

  /** `createHash(id)`: the Redis key of the employee whose id text is `id`. */
  function CreateHash(id: string): (key: string)
    ensures |key| == |KeyPrefix| + |id|
    ensures key[..|KeyPrefix|] == KeyPrefix
    ensures key[|KeyPrefix|..] == id
  {
    KeyPrefix + id
  }

  /** Different id texts name different hashes. */
  lemma CreateHashInjective(a: string, b: string)
    requires CreateHash(a) == CreateHash(b)
    ensures a == b
  {
    assert a == CreateHash(a)[|KeyPrefix|..];
  }

  /**
   * `deserializeEmployee(valueMap)`: a null or empty field map means "no such
   * employee" (`Ok(None)`); any other map goes through the object mapper
   * `convert`, which may refuse it.
   */
  function DeserializeEmployee(valueMap: Option<Hash>, convert: Hash -> Option<Employee>): (r: Result<Option<Employee>, Failure>)
    ensures r == Ok(None) <==> valueMap.None? || valueMap.value == map[]
    ensures r.Ok? && r.value.Some? ==> valueMap.Some? && convert(valueMap.value) == Some(r.value.value)
    ensures r.Err? ==> r.error == ConversionFailure && valueMap.Some? && convert(valueMap.value) == None
  {
    if valueMap.None? || valueMap.value == map[] then Ok(None)
    else
      match convert(valueMap.value)
      case Some(e) => Ok(Some(e))
      case None => Err(ConversionFailure)
  }

  /** `target` occurs in `s` starting at index `i`. */
  predicate OccursAt(s: string, target: string, i: int)
  {
    0 <= i && i + |target| <= |s| && s[i..i + |target|] == target
  }

  /**
   * `s.replace(target, "")`: every occurrence of `target`, found left to right
   * without overlap, is removed; the result is not scanned again.
   */
  function RemoveOccurrences(s: string, target: string): (r: string)
    ensures |r| <= |s|
    ensures target == [] ==> r == s
    decreases |s|
  {
    if target == [] || |s| < |target| then s
    else if s[..|target|] == target then RemoveOccurrences(s[|target|..], target)
    else [s[0]] + RemoveOccurrences(s[1..], target)
  }

  /** A string in which `target` never occurs is left as it is. */
  lemma {:induction false} RemoveOccurrencesAbsent(s: string, target: string)
    requires forall i :: !OccursAt(s, target, i)
    ensures RemoveOccurrences(s, target) == s
    decreases |s|
  {
    if target == [] || |s| < |target| {
    } else {
      assert !OccursAt(s, target, 0);
      assert s[..|target|] != target;
      forall i ensures !OccursAt(s[1..], target, i) {
        if OccursAt(s[1..], target, i) {
          assert s[1..][i..i + |target|] == s[i + 1..i + 1 + |target|];
          assert OccursAt(s, target, i + 1);
        }
      }
      RemoveOccurrencesAbsent(s[1..], target);
      assert s == [s[0]] + s[1..];
    }
  }

  /** A leading occurrence of `target` is removed and the rest is processed alone. */
  lemma RemoveOccurrencesLeading(target: string, s: string)
    requires target != []
    ensures RemoveOccurrences(target + s, target) == RemoveOccurrences(s, target)
  {
    assert (target + s)[..|target|] == target;
    assert (target + s)[|target|..] == s;
  }

  /** A first character that does not start an occurrence is kept, and the scan moves on by one. */
  lemma RemoveOccurrencesSkip(s: string, target: string)
    requires target != [] && s != []
    requires !OccursAt(s, target, 0)
    ensures RemoveOccurrences(s, target) == [s[0]] + RemoveOccurrences(s[1..], target)
  {
    if |s| >= |target| {
      assert s[..|target|] != target;
    } else {
      assert s == [s[0]] + s[1..];
    }
  }

  /** The decimal text of a long never contains the key prefix, whose last character is a colon. */
  lemma PrefixNotInLongText(n: Long)
    ensures forall i :: !OccursAt(LongToString(n), KeyPrefix, i)
  {
    var s := LongToString(n);
    forall i ensures !OccursAt(s, KeyPrefix, i) {
      if 0 <= i && i + |KeyPrefix| <= |s| {
        assert s[i..i + |KeyPrefix|][|KeyPrefix| - 1] == s[i + |KeyPrefix| - 1] != ':';
      }
    }
  }

  /** Removing the key prefix from the key of a long id gives back the id's text. */
  lemma RawIdOfKey(n: Long)
    ensures RemoveOccurrences(CreateHash(LongToString(n)), KeyPrefix) == LongToString(n)
  {
    RemoveOccurrencesLeading(KeyPrefix, LongToString(n));
    PrefixNotInLongText(n);
    RemoveOccurrencesAbsent(LongToString(n), KeyPrefix);
  }

  /**
   * `deserializeEmployeeHashSearchResults(doc)`: the id is the long left after
   * removing the key prefix from the document key; name, department and salary
   * are set only when the document has that property, so a partial document
   * keeps the defaults of a fresh `Employee`. `parseDouble` stands for
   * `Double.parseDouble` (`None`: `NumberFormatException`).
   */
  function DecodeSearchDocument(doc: Document, parseDouble: string -> Option<Salary>): (r: Result<Employee, Failure>)
    ensures ParseLong(RemoveOccurrences(doc.id, KeyPrefix)).None? ==>
              r == Err(NumberFormat(RemoveOccurrences(doc.id, KeyPrefix)))
    ensures r.Ok? <==> ParseLong(RemoveOccurrences(doc.id, KeyPrefix)).Some? &&
                       ("salary" in doc.properties ==> parseDouble(doc.properties["salary"]).Some?)
    ensures r.Ok? ==> r.value.id == ParseLong(RemoveOccurrences(doc.id, KeyPrefix))
    ensures r.Ok? ==> (r.value.name.Some? <==> "name" in doc.properties)
    ensures r.Ok? && "name" in doc.properties ==> r.value.name.value == doc.properties["name"]
    ensures r.Ok? ==> (r.value.department.Some? <==> "department" in doc.properties)
    ensures r.Ok? && "department" in doc.properties ==> r.value.department.value == doc.properties["department"]
    ensures r.Ok? && "salary" !in doc.properties ==> r.value.salary == DefaultSalary
    ensures r.Ok? && "salary" in doc.properties ==> parseDouble(doc.properties["salary"]) == Some(r.value.salary)
  {
    var rawId := RemoveOccurrences(doc.id, KeyPrefix);
    match ParseLong(rawId)
    case None => Err(NumberFormat(rawId))
    case Some(id) =>
      var emp := BlankEmployee.(id := Some(id));
      var emp := if "name" in doc.properties then emp.(name := Some(doc.properties["name"])) else emp;
      var emp := if "department" in doc.properties then emp.(department := Some(doc.properties["department"])) else emp;
      if "salary" !in doc.properties then Ok(emp)
      else
        match parseDouble(doc.properties["salary"])
        case None => Err(NumberFormat(doc.properties["salary"]))
        case Some(x) => Ok(emp.(salary := x))
  }

  /**
   * Round trip with the key derivation: a document indexed under the key of a
   * long id decodes to that id, whatever else it holds, unless its salary text
   * does not parse.
   */
  lemma DecodeKeyOfId(n: Long, doc: Document, parseDouble: string -> Option<Salary>)
    requires doc.id == CreateHash(LongToString(n))
    requires "salary" in doc.properties ==> parseDouble(doc.properties["salary"]).Some?
    ensures DecodeSearchDocument(doc, parseDouble).Ok?
    ensures DecodeSearchDocument(doc, parseDouble).value.id == Some(n)
  {
    RawIdOfKey(n);
    ParseLongToString(n);
  }

  /** `"employee:4employee:2".replace("employee:", "")` is `"42"`. */
  lemma RemoveEveryOccurrenceExample()
    ensures RemoveOccurrences("employee:4employee:2", KeyPrefix) == "42"
  {
    var tail := "4employee:2";
    assert "employee:4employee:2" == KeyPrefix + tail;
    RemoveOccurrencesLeading(KeyPrefix, tail);
    assert tail[..|KeyPrefix|][0] != KeyPrefix[0];
    assert tail[1..] == KeyPrefix + "2";
    RemoveOccurrencesLeading(KeyPrefix, "2");
  }

  /**
   * The removal is not limited to the prefix: a key holding the prefix twice
   * loses both copies, so `employee:4employee:2` decodes to id 42.
   */
  lemma DecodeRemovesEveryOccurrence(parseDouble: string -> Option<Salary>)
    ensures DecodeSearchDocument(Document("employee:4employee:2", map[]), parseDouble) ==
            Ok(Employee(Some(42), None, None, DefaultSalary))
  {
    RemoveEveryOccurrenceExample();
    assert ParseLong("42") == Some(42) by {
      assert "42"[..1] == "4";
      assert DigitsValue("42") == 42;
    }
    var r := DecodeSearchDocument(Document("employee:4employee:2", map[]), parseDouble);
    assert r.Ok? && r.value.id == Some(42);
    assert r.value.name.None? && r.value.department.None? && r.value.salary == DefaultSalary;
  }
}
