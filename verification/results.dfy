/**
 Failure values of the services. The Java code signals every failure by throwing;
 here each one is a value of `Error`, and `Status` gives the HTTP status the thrown
 exception carries (a `ResponseStatusException`'s own status, or 500 for the runtime
 exceptions the controllers turn into an internal error).
 */
module Results {

  datatype Option<+T> = None | Some(value: T) {
    function GetOr(default: T): T {
      match this
      case Some(v) => v
      case None => default
    }
  }

  datatype HttpStatus = BadRequest | Unauthorized | Forbidden | NotFound | Conflict | InternalServerError {
    function Code(): int {
      match this
      case BadRequest => 400
      case Unauthorized => 401
      case Forbidden => 403
      case NotFound => 404
      case Conflict => 409
      case InternalServerError => 500
    }
  }

  datatype Error =
    | UserNotFound(userId: int)          // "User not found with ID: "
    | UserEmailNotFound(email: string)   // "User not found with email: "
    | NoUsers                            // "No users found."
    | EmailInUse                         // "Email is already in use."
    | UsernameInUse                      // "Username is already in use."
    | InvalidCredentials                 // "Invalid email or password."
    | PhotoTooLarge                      // "File size exceeds 500 KB."
    | PhotoUnreadable                    // "Failed to detect file type."
    | PhotoTypeRejected                  // "Invalid file type. Only JPG, PNG, and WEBP are allowed."
    | ProductNotFound(productId: int)    // "Product not found with ID: "
    | InventoryNotFound(inventoryId: int) // "Inventory not found with ID: "
    | NullValue                          // a NullPointerException while aggregating
    | DuplicateKey                       // Map.ofEntries given the same key twice
  {
    function Status(): HttpStatus {
      match this
      case UserNotFound(_) => NotFound
      case UserEmailNotFound(_) => NotFound
      case NoUsers => NotFound
      case EmailInUse => Conflict
      case UsernameInUse => Conflict
      case InvalidCredentials => Unauthorized
      case PhotoTooLarge => BadRequest
      case PhotoUnreadable => InternalServerError
      case PhotoTypeRejected => BadRequest
      case ProductNotFound(_) => NotFound
      case InventoryNotFound(_) => NotFound
      case NullValue => InternalServerError
      case DuplicateKey => InternalServerError
    }
  }

  datatype Result<+T> = Ok(value: T) | Err(error: Error) {
    predicate IsFailure() {
      Err?
    }

    function PropagateFailure<U>(): Result<U>
      requires Err?
    {
      Err(error)
    }

    function Extract(): T
      requires Ok?
    {
      value
    }
  }
}

/**
 What the JPA repositories do to a store on `save`: a write returns the new
 store together with the entity `save` hands back to the caller.
 */
module Persistence {

  datatype Saved<+T> = Saved(store: map<int, T>, entity: T)

  /** Hibernate flushes a managed entity only when one of its columns changed,
      and only then runs its `@PreUpdate` callback; `stamped` is `after` with
      that callback applied. */
  function Flush<T(==)>(before: T, after: T, stamped: T): T {
    if after == before then before else stamped
  }
}
