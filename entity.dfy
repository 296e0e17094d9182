/**
 * The values the application passes around: the `Employee` entity, the field
 * values of a Redis hash, RediSearch result documents and the exceptions the
 * core can raise.
 */
module Entity {
  import opened Wrappers

  /** Bounds of a Java `long`. */
  const MinLong: int := -0x8000_0000_0000_0000
  const MaxLong: int := 0x7FFF_FFFF_FFFF_FFFF

  /** A Java `long` (and the value of a non-null `Long`). */
  type Long = x: int | MinLong <= x <= MaxLong

  /**
   * A Java `double`. The model never computes with salaries: they are copied,
   * stored and parsed by a parameter standing for `Double.parseDouble`.
   */
  type Salary = real

  /** The default a fresh `Employee` holds in its primitive `salary` field. */
  const DefaultSalary: Salary := 0.0

  /**
   * The `Employee` entity. `id`, `name` and `department` are Java references and
   * may be null; `salary` is a primitive and is never null.
   */
  datatype Employee = Employee(
    id: Option<Long>,
    name: Option<string>,
    department: Option<string>,
    salary: Salary)

  /** `new Employee()`: every reference field null, salary 0.0. */
  const BlankEmployee: Employee := Employee(None, None, None, DefaultSalary)

  /** A value stored under a field of a Redis hash. */
  datatype Value = Text(text: string) | Number(number: Salary)

  /** The field map of one Redis hash. */
  type Hash = map<string, Value>

  /**
   * A RediSearch result document: the key of the hash it indexes and the
   * document's properties, each read back as a string.
   */
  datatype Document = Document(id: string, properties: map<string, string>)

  /** The exceptions that leave the core. */
  datatype Failure =
    | AlreadyExist(message: string)    // AlreadyExistException
    | NotFound(message: string)        // RuntimeException with a not-found message
    | TransactionFailure               // RuntimeException wrapping a fault, after DISCARD
    | NullPointer                      // NullPointerException from a null id
    | NumberFormat(input: string)      // NumberFormatException from a numeric parse
    | ConversionFailure                // IllegalArgumentException from object mapping
}
