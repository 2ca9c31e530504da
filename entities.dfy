/**
 * The records the services exchange: the `article` and `users` rows, the two
 * request bodies, and the HTTP errors the services throw.
 */
module Entities {

  /** A row of the `article` table; `createdAt` is the insertion timestamp. */
  datatype Article = Article(id: int, title: string, content: string, author: string, createdAt: int)

  /** The body of a create or update request. */
  datatype ArticleDto = ArticleDto(title: string, content: string, author: string)

  datatype Order = Asc | Desc

  /** A row of the `users` table; `password` holds the bcrypt hash, never the plain text. */
  datatype User = User(id: int, username: string, password: string)

  /** The body of a register or login request (plain-text password). */
  datatype UserDto = UserDto(username: string, password: string)

  datatype Status = BadRequest | Unauthorized | NotFound | InternalServerError

  /** An `HttpException(message, status)`, or any other exception, which Nest answers with 500. */
  datatype Failure = HttpException(message: string, status: Status)

  datatype Result<+T> = Ok(value: T) | Err(failure: Failure)

  const ArticleNotFound := HttpException("Article not found", NotFound)
  const FetchError := HttpException("Error fetching articles", InternalServerError)
  const UserExists := HttpException("User already exists", BadRequest)
  const UserNotFound := HttpException("User not found", NotFound)
  const InvalidCredentials := HttpException("Invalid credentials", Unauthorized)

  /** What Nest answers for an exception that is not an `HttpException`. */
  const InternalError := HttpException("Internal server error", InternalServerError)
}
