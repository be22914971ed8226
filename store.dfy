/**
 * Store selection: NewStore picks a backend by its configured name. The two
 * SQL backends are outside this model; their constructors' outcome (they open
 * a database) is a parameter, and the handle they give only records which
 * backend was chosen and with which connection string.
 */
module Store {
  import opened Wrappers
  import opened Records
  import Memory

  datatype StoreKind = Sqlite | InMemory | Postgres

  datatype StoreError =
    | UnknownStoreType(storeType: string)
    | OpenFailed(message: string)

  /** What NewStore hands back: the memory store itself, or an opened SQL backend. */
  datatype StoreHandle =
    | MemoryBackend(store: Memory.MemoryStore)
    | SqlBackend(kind: StoreKind, connectionString: string)

  /** The switch on the store type name: exactly three names are known. */
  function SelectKind(storeType: string): (r: Result<StoreKind, StoreError>)
    ensures r.Success? <==> storeType in {"sqlite", "memory", "postgres"}
    ensures r.Failure? ==> r.error == UnknownStoreType(storeType)
    ensures storeType == "sqlite" ==> r == Success(Sqlite)
    ensures storeType == "memory" ==> r == Success(InMemory)
    ensures storeType == "postgres" ==> r == Success(Postgres)
  {
    match storeType
    case "sqlite" => Success(Sqlite)
    case "memory" => Success(InMemory)
    case "postgres" => Success(Postgres)
    case _ => Failure(UnknownStoreType(storeType))
  }

  /**
   * NewStore. "memory" never fails and gives a fresh, empty memory store;
   * "sqlite" and "postgres" fail exactly when their constructor does
   * (sqlOpenError); any other name fails with "unknown store type".
   */
  method NewStore(storeType: string, connectionString: string, sqlOpenError: Option<string>)
    returns (res: Result<StoreHandle, StoreError>)
    ensures storeType == "memory" ==>
              && res.Success? && res.value.MemoryBackend?
              && fresh(res.value.store) && res.value.store.Valid() && res.value.store.records == map[]
    ensures storeType == "sqlite" ==>
              res == match sqlOpenError
                     case Some(msg) => Failure(OpenFailed(msg))
                     case None => Success(SqlBackend(Sqlite, connectionString))
    ensures storeType == "postgres" ==>
              res == match sqlOpenError
                     case Some(msg) => Failure(OpenFailed(msg))
                     case None => Success(SqlBackend(Postgres, connectionString))
    ensures storeType !in {"sqlite", "memory", "postgres"} ==> res == Failure(UnknownStoreType(storeType))
  {
    var kind := SelectKind(storeType);
    if kind.Failure? {
      return Failure(kind.error);
    }
    if kind.value == InMemory {
      var s := new Memory.MemoryStore();
      return Success(MemoryBackend(s));
    }
    if sqlOpenError.Some? {
      return Failure(OpenFailed(sqlOpenError.value));
    }
    return Success(SqlBackend(kind.value, connectionString));
  }
}
