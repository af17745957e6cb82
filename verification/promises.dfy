/** How a promise of the GraphQL layer settles. */
module Promises {

  /**
   * Why a promise rejected: an `Error` the handler builds with its message, or an error
   * raised inside a library (jsonwebtoken, Sequelize) whose text is not part of this model.
   */
  datatype Reason = Message(text: string) | LibraryError

  datatype Answer<T> = Resolved(value: T) | Rejected(reason: Reason)
}
