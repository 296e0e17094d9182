# redispoc core, modelled in Dafny

This project models the part of the Spring/Redis employee service that holds logic of its own:

- the data-access component `HashOperationDto`: create-if-absent and delete-if-present under optimistic locking, the hash read, and the mapping of search documents;
- the static helpers in `RedispocConstantUtils`: deriving the `employee:<id>` key, decoding a hash, and decoding a RediSearch document;
- the service `HashOperationService`: three pass-through calls and the read rule.

Files, one module each:

- `wrappers.dfy` (`Wrappers`): `Option`, which stands for a Java `null`, and `Result`, which stands for a thrown exception.
- `entity.dfy` (`Entity`): the `Employee` entity, a Java `long` as a subset type, hash field values, search documents and the exceptions the core raises.
- `java_long.dfy` (`JavaLong`): `Long.parseLong` and `Long.toString`, with the proof that parsing reads back every printed long.
- `constant_utils.dfy` (`ConstantUtils`): `createHash`, `deserializeEmployee`, `String.replace(target, "")` and the search-document decoder.
- `redis.dfy` (`Redis`): the class `Connection` models the Redis connection. It holds the keyspace as a `map<string, map<string, Value>>`, the watched key, and the MULTI queue. WATCH, UNWATCH, EXISTS, MULTI, HSET, DEL, EXEC and DISCARD are methods that change it in place.
- `hash_operation_dto.dfy` (`Dto`): the two retry loops as methods of the class `HashOperationDto`. Each loop is proved equal to a recursive specification function (`CreateFrom`, `DeleteFrom`). Lemmas about those functions state the attempt bound, the frame, the terminal exceptions and the effect on the keyspace.
- `hash_operation_service.dfy` (`Service`): the service class, the read rule, and lemmas that chain operations, such as create-then-read and delete-then-read.

Each `EXEC` outcome comes from an oracle: the i-th element of `outcomes` decides the i-th EXEC of the call. The outcome is one of three:

- `Applied`: the queue runs atomically.
- `Refused(rival)`: another client wrote the watched key. `rival` is what it left there, and `None` means it removed the key. None of the queued commands runs, and the reply list is empty.
- `Faulted`: the call threw, and nothing reached the keyspace.

A call can issue up to three EXECs, so its oracle must hold at least three elements. The components' other external calls are parameters:

- `convert` stands for Jackson's `convertValue`. It returns `None` when the mapper throws.
- `parseDouble` stands for `Double.parseDouble`.
- The search result documents are an input sequence.

Details of the code that the model keeps:

- The id of a search document comes from `String.replace` (RedispocConstantUtils.java:29), which removes every occurrence of `employee:`, not just a leading one. For example, `employee:4employee:2` decodes to id 42 (`DecodeRemovesEveryOccurrence`).
- Ids are parsed by `Long.parseLong` (RedispocConstantUtils.java:30). It accepts a sign, so ids are signed longs.
- The create transaction also queues a `hasKey` after the HSET (HashOperationDto.java:101). The model queues it as an `Exists` command. It adds one reply to the EXEC result and changes nothing else.
- `Map.of` (HashOperationDto.java:94-98) refuses null values. Creating an employee whose name or department is null therefore fails inside the `try`: the transaction is discarded and a `RuntimeException` is raised (`TransactionFailure`). No EXEC is issued.

## Model

| member | source | states |
|---|---|---|
| `JavaLong.ParseLong` | src/main/java/com/himanshu/redispoc/util/RedispocConstantUtils.java:30 | `Long.parseLong`: empty text fails; an accepted text starts with a digit, `-` or `+`, ends in a digit and has only digits after its first character; a negative result needs a leading `-`; every result is within the range of a long |
| `JavaLong.ParseLongAccepts` | src/main/java/com/himanshu/redispoc/util/RedispocConstantUtils.java:30 | every optional sign followed by one or more digits is read as the signed value of the digits when that fits in a long, and is a `NumberFormatException` otherwise |
| `JavaLong.NatToString` | src/main/java/com/himanshu/redispoc/dto/HashOperationDto.java:72 | the digits of a natural number: non-empty, all decimal digits, no leading zero, and their value is the number |
| `JavaLong.LongToString` | src/main/java/com/himanshu/redispoc/dto/HashOperationDto.java:72 | `Long.toString`: non-empty, a leading `-` exactly for negative values, digits everywhere else |
| `JavaLong.ParseLongToString` | src/main/java/com/himanshu/redispoc/util/RedispocConstantUtils.java:30 | round trip: `Long.parseLong(Long.toString(n)) == n` for every long `n` |
| `JavaLong.LongToStringInjective` | src/main/java/com/himanshu/redispoc/dto/HashOperationDto.java:72 | distinct ids give distinct id texts, so no two employees share a key |
| `ConstantUtils.CreateHash` | src/main/java/com/himanshu/redispoc/util/RedispocConstantUtils.java:12-14 | the key starts with `employee:` and the rest of it is the id text |
| `ConstantUtils.CreateHashInjective` | src/main/java/com/himanshu/redispoc/util/RedispocConstantUtils.java:12-14 | different id texts give different keys |
| `ConstantUtils.DeserializeEmployee` | src/main/java/com/himanshu/redispoc/util/RedispocConstantUtils.java:17-21 | "no employee" exactly when the map is null or empty; otherwise the mapper's employee, or its exception when it refuses the map |
| `ConstantUtils.RemoveOccurrences` | src/main/java/com/himanshu/redispoc/util/RedispocConstantUtils.java:29 | `replace(target, "")` never lengthens the text and leaves it as it is for an empty target |
| `ConstantUtils.RemoveOccurrencesAbsent` | src/main/java/com/himanshu/redispoc/util/RedispocConstantUtils.java:29 | a text in which the target never occurs is returned unchanged |
| `ConstantUtils.RemoveOccurrencesLeading` | src/main/java/com/himanshu/redispoc/util/RedispocConstantUtils.java:29 | a leading occurrence is removed and the rest is processed on its own |
| `ConstantUtils.RemoveOccurrencesSkip` | src/main/java/com/himanshu/redispoc/util/RedispocConstantUtils.java:29 | a first character that does not start an occurrence is kept and the scan resumes one character later |
| `ConstantUtils.PrefixNotInLongText` | src/main/java/com/himanshu/redispoc/util/RedispocConstantUtils.java:29 | `employee:` never occurs inside the decimal text of a long |
| `ConstantUtils.RawIdOfKey` | src/main/java/com/himanshu/redispoc/util/RedispocConstantUtils.java:28-29 | removing `employee:` from the key of a long id gives back exactly the id text |
| `ConstantUtils.DecodeSearchDocument` | src/main/java/com/himanshu/redispoc/util/RedispocConstantUtils.java:25-45 | id = the long parsed from the key after removal, and a `NumberFormatException` on that remainder when it is not a long; name, department and salary are set exactly when the document has that property (copied verbatim, or parsed for salary) and otherwise keep null, null and 0.0 |
| `ConstantUtils.DecodeKeyOfId` | src/main/java/com/himanshu/redispoc/util/RedispocConstantUtils.java:28-31 | round trip: a document under the key `createHash(toString(n))` decodes to id `n` |
| `ConstantUtils.RemoveEveryOccurrenceExample` | src/main/java/com/himanshu/redispoc/util/RedispocConstantUtils.java:29 | `"employee:4employee:2".replace("employee:", "")` is `"42"` |
| `ConstantUtils.DecodeRemovesEveryOccurrence` | src/main/java/com/himanshu/redispoc/util/RedispocConstantUtils.java:28-31 | a key with the prefix twice loses both copies: `employee:4employee:2` decodes to id 42 with every other field at its default |
| `Redis.Entries` | src/main/java/com/himanshu/redispoc/dto/HashOperationDto.java:129 | HGETALL: the stored fields, or an empty map for a missing key |
| `Redis.Perform` | src/main/java/com/himanshu/redispoc/dto/HashOperationDto.java:100-101 | one command's effect: HSET merges the fields into the key's hash (new fields win, old ones stay), EXISTS answers presence and changes nothing, DEL removes the key and counts 1 or 0; no other key changes |
| `Redis.PerformAll` | src/main/java/com/himanshu/redispoc/dto/HashOperationDto.java:104 | an applied EXEC gives one reply per queued command |
| `Redis.Rival` | src/main/java/com/himanshu/redispoc/dto/HashOperationDto.java:104 | a rival client's write changes the watched key and no other |
| `Redis.Connection.Watch` | src/main/java/com/himanshu/redispoc/dto/HashOperationDto.java:83 | WATCH marks the key and changes nothing else |
| `Redis.Connection.Unwatch` | src/main/java/com/himanshu/redispoc/dto/HashOperationDto.java:87 | UNWATCH drops the watch and changes nothing else |
| `Redis.Connection.HasKey` | src/main/java/com/himanshu/redispoc/dto/HashOperationDto.java:86 | EXISTS answers key membership outside a transaction; inside one it is queued and answers null |
| `Redis.Connection.Multi` | src/main/java/com/himanshu/redispoc/dto/HashOperationDto.java:92 | MULTI opens an empty queue |
| `Redis.Connection.PutAll` | src/main/java/com/himanshu/redispoc/dto/HashOperationDto.java:100 | HSET is queued inside a transaction and merges the fields into the hash otherwise |
| `Redis.Connection.Delete` | src/main/java/com/himanshu/redispoc/dto/HashOperationDto.java:174 | DEL is queued inside a transaction and removes the key otherwise |
| `Redis.Connection.Exec` | src/main/java/com/himanshu/redispoc/dto/HashOperationDto.java:104 | an applied EXEC runs the queue atomically; a refused one runs nothing, returns an empty list and leaves the rival's write; both end the transaction and the watch; a fault changes nothing |
| `Redis.Connection.Discard` | src/main/java/com/himanshu/redispoc/dto/HashOperationDto.java:113 | DISCARD drops the queue and the watch and leaves the keyspace alone |
| `Dto.EmployeeHash` | src/main/java/com/himanshu/redispoc/dto/HashOperationDto.java:94-98 | the stored map has exactly `name`, `department` and `salary`, with the employee's values; a null name or department is refused |
| `Dto.SaveSpec` | src/main/java/com/himanshu/redispoc/dto/HashOperationDto.java:72 | a null id throws a `NullPointerException` before any session, leaving the keyspace unchanged |
| `Dto.DeleteSpec` | src/main/java/com/himanshu/redispoc/dto/HashOperationDto.java:167-171 | a missing key gives the not-found exception with no EXEC and the keyspace unchanged |
| `Dto.CreateFrom` | src/main/java/com/himanshu/redispoc/dto/HashOperationDto.java:78-118 | the create loop: at most three EXECs, and after `true` the key holds exactly the employee's fields, after `AlreadyExist` the key is present |
| `Dto.DeleteFrom` | src/main/java/com/himanshu/redispoc/dto/HashOperationDto.java:160-191 | the delete loop: at most three EXECs, and after `true` or `NotFound` the key is absent |
| `Dto.CreateFromFrame` | src/main/java/com/himanshu/redispoc/dto/HashOperationDto.java:72 | the create session changes no key except `employee:<id>` |
| `Dto.CreateFromAttempts` | src/main/java/com/himanshu/redispoc/dto/HashOperationDto.java:78-118 | at most 3 EXECs; every EXEC but the last was refused; `false` only after the third EXEC, which was refused; `true` only right after an applied EXEC; a transaction failure ends the loop at a fault and is never retried |
| `Dto.CreateFromKey` | src/main/java/com/himanshu/redispoc/dto/HashOperationDto.java:86-118 | after `true` the key holds exactly the three fields; after `AlreadyExist` it holds a hash; after a transaction failure it is still absent; after `false` it holds what the last rival left |
| `Dto.CreateFromResults` | src/main/java/com/himanshu/redispoc/dto/HashOperationDto.java:81-118 | the create loop ends with `true`, `false`, `AlreadyExist` or a transaction failure, and nothing else |
| `Dto.CreateFromExisting` | src/main/java/com/himanshu/redispoc/dto/HashOperationDto.java:86-90 | an existing key gives `AlreadyExist` with the keyspace unchanged and no EXEC |
| `Dto.CreateFromApplied` | src/main/java/com/himanshu/redispoc/dto/HashOperationDto.java:86-108 | an absent key, a complete hash and an applied EXEC give `true` with exactly the fields stored under the key and one EXEC used |
| `Dto.CreateFromKeyAppears` | src/main/java/com/himanshu/redispoc/dto/HashOperationDto.java:81-90 | the check is repeated after a fresh watch: a key that a rival creates during a refused attempt gives `AlreadyExist`, not `false` |
| `Dto.CreateFromExhausted` | src/main/java/com/himanshu/redispoc/dto/HashOperationDto.java:110-118 | three refusals that leave the key absent return `false` after exactly 3 EXECs, with the keyspace unchanged |
| `Dto.CreateQueueEffect` | src/main/java/com/himanshu/redispoc/dto/HashOperationDto.java:100-104 | the applied create queue (HSET, then the extra EXISTS) stores exactly the three fields |
| `Dto.DeleteFromFrame` | src/main/java/com/himanshu/redispoc/dto/HashOperationDto.java:155 | the delete session changes no key except `employee:<id>` |
| `Dto.DeleteFromAttempts` | src/main/java/com/himanshu/redispoc/dto/HashOperationDto.java:160-191 | at most 3 EXECs; only refusals are retried; `false` only after the third EXEC, which was refused; a fault ends the loop |
| `Dto.DeleteFromKey` | src/main/java/com/himanshu/redispoc/dto/HashOperationDto.java:167-191 | after `true` or not-found the key is absent; after a transaction failure it is still present; after `false` it holds what the last rival left |
| `Dto.DeleteFromApplied` | src/main/java/com/himanshu/redispoc/dto/HashOperationDto.java:167-181 | a present key and an applied EXEC give `true`, with the key removed and every other key kept |
| `Dto.DeleteFromResults` | src/main/java/com/himanshu/redispoc/dto/HashOperationDto.java:163-191 | the delete loop ends with `true`, `false`, the not-found exception or a transaction failure |
| `Dto.DeleteFromKeyVanishes` | src/main/java/com/himanshu/redispoc/dto/HashOperationDto.java:163-171 | a key that a rival removes during a refused attempt gives not-found, not `false` |
| `Dto.DeleteFromExhausted` | src/main/java/com/himanshu/redispoc/dto/HashOperationDto.java:183-191 | three refusals that leave the hash as it was return `false` after exactly 3 EXECs, with the keyspace unchanged |
| `Dto.DecodeAll` | src/main/java/com/himanshu/redispoc/dto/HashOperationDto.java:141-145 | the mapping succeeds exactly when every document decodes; then the i-th employee is the decode of the i-th document, and there are as many employees as documents (so none for no documents) |
| `Dto.DecodeAllSucceeds` | src/main/java/com/himanshu/redispoc/dto/HashOperationDto.java:141-147 | documents that all decode give exactly the list of their decodes, in order |
| `Dto.DecodeAllFirstFailure` | src/main/java/com/himanshu/redispoc/dto/HashOperationDto.java:141-145 | the first document that does not decode ends the mapping with its exception |
| `Dto.HashOperationDto.SaveToHash` | src/main/java/com/himanshu/redispoc/dto/HashOperationDto.java:68-74 | result, keyspace and EXEC count are those of `SaveSpec`: a null id fails first, then the create session runs on `employee:<id>` |
| `Dto.HashOperationDto.CreateSession` | src/main/java/com/himanshu/redispoc/dto/HashOperationDto.java:76-119 | the watch/check/MULTI/HSET/EXEC loop returns, and leaves, exactly what `CreateFrom` specifies, issues exactly its count of EXECs, and leaves the connection with no watch or transaction open |
| `Dto.HashOperationDto.GetEmployeeFromHash` | src/main/java/com/himanshu/redispoc/dto/HashOperationDto.java:123-132 | "no employee" exactly when the key is missing or its hash is empty; otherwise the decoded hash |
| `Dto.HashOperationDto.SearchEmployeeFromHash` | src/main/java/com/himanshu/redispoc/dto/HashOperationDto.java:134-148 | the list the for-loop builds is `DecodeAll` of the documents |
| `Dto.HashOperationDto.DeleteEmployeeById` | src/main/java/com/himanshu/redispoc/dto/HashOperationDto.java:151-156 | result, keyspace and EXEC count are those of `DeleteSpec`: the delete session runs on `employee:<id>` |
| `Dto.HashOperationDto.DeleteSession` | src/main/java/com/himanshu/redispoc/dto/HashOperationDto.java:158-192 | the watch/check/MULTI/DEL/EXEC loop returns, and leaves, exactly what `DeleteFrom` specifies, issues exactly its count of EXECs, and leaves the connection with no watch or transaction open |
| `Service.EmployeeOrNotFound` | src/main/java/com/himanshu/redispoc/service/HashOperationService.java:29-37 | a null lookup gives "Employee not found with id: <id>"; a found employee gets `Long.parseLong(id)` as its id and keeps its name, department and salary; a lookup exception or a bad id text propagates |
| `Service.ReadSpec` | src/main/java/com/himanshu/redispoc/service/HashOperationService.java:27-38 | a missing key gives not-found; a returned employee is the mapper's record of the stored non-empty hash, with its id replaced by the parsed id |
| `Service.HashOperationService.SaveEmployeeToRedisHash` | src/main/java/com/himanshu/redispoc/service/HashOperationService.java:22-25 | returns the data-access create result and exceptions, and leaves the keyspace as that call does |
| `Service.HashOperationService.GetEmployeeFromRedisHash` | src/main/java/com/himanshu/redispoc/service/HashOperationService.java:27-38 | the read path of `ReadSpec` over the current keyspace |
| `Service.HashOperationService.SearchEmployeeFromRedisHash` | src/main/java/com/himanshu/redispoc/service/HashOperationService.java:40-43 | returns the data-access list unchanged |
| `Service.HashOperationService.DeleteEmployeeHashFromRedis` | src/main/java/com/himanshu/redispoc/service/HashOperationService.java:45-48 | returns the data-access delete result and exceptions, and leaves the keyspace as that call does |
| `Service.CreateThenRead` | src/main/java/com/himanshu/redispoc/service/HashOperationService.java:27-38 | after a create that returned `true`, reading the id's text returns the created employee, provided the mapper reads the three fields back |
| `Service.CreateExistingKeepsRecord` | src/main/java/com/himanshu/redispoc/dto/HashOperationDto.java:86-90 | a create on an existing id gives `AlreadyExist`, and every read afterwards returns what it returned before |
| `Service.DeleteThenRead` | src/main/java/com/himanshu/redispoc/service/HashOperationService.java:29-35 | after a delete that returned `true`, reading the same id gives not-found |

## Left out

- `createIndex` (HashOperationDto.java:38-62): a single call into the RediSearch client whose exceptions are all logged and swallowed. It has no logic of its own.
- The RediSearch query (`jedis.ftSearch`) and the `IndexSearch` request: the documents it returns are an input sequence. Malformed queries and the index's matching rules are not modelled.
- Real concurrency: rival clients appear only through the `rival` payload of a refused EXEC. Interleavings of two sessions, and the claim that two racing creates never both return `true`, are not modelled.
- Faults from WATCH, EXISTS, MULTI, HSET or DEL themselves are not modelled. Only EXEC can fault. A refused EXEC is assumed to apply none of the queued commands.
- Value serialization by the Redis template, and Jackson's `convertValue`: the stored hash holds model values, and the object mapper is the parameter `convert`.
- `Double.parseDouble` and floating point: a salary is an opaque `real` that is only copied, and its parsing is the parameter `parseDouble`.
- `Redis.Perform`, `Redis.Rival`: the keyspace may hold a key whose hash is empty, and a rival may leave one, although Redis never stores an empty hash. For such a key the create check reports `AlreadyExist` while a read reports not found.
- `JavaLong.ParseLong`: accepts only ASCII digits, whereas `Long.parseLong` also accepts the other Unicode decimal digits that `Character.digit` recognises.
- `Service.HashOperationService.GetEmployeeFromRedisHash`: `setId` mutates the object that the mapper just created. Nothing else holds that object, so the model updates a value (`employee.(id := ...)`) and does not model aliasing.
- The HTTP controller, the exception handler's status codes, application bootstrap and all logging.
