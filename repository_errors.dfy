/**
 * The store-agnostic error vocabulary every repository write reports
 * (`RepositoryError` and its three subclasses).
 */
module RepositoryErrors {

  datatype RepositoryError =
    | NotFound     // the row targeted by an update or delete does not exist
    | Conflict     // a unique key (id, e-mail) is already taken
    | Persistence  // any other storage failure

  /** The readonly `type` discriminator each error class declares. */
  function TypeTag(e: RepositoryError): (tag: string)
    ensures tag == "REPOSITORY_NOT_FOUND" <==> e == NotFound
    ensures tag == "REPOSITORY_CONFLICT" <==> e == Conflict
    ensures tag == "REPOSITORY_PERSISTENCE_ERROR" <==> e == Persistence
  {
    match e
    case NotFound => "REPOSITORY_NOT_FOUND"
    case Conflict => "REPOSITORY_CONFLICT"
    case Persistence => "REPOSITORY_PERSISTENCE_ERROR"
  }
}
