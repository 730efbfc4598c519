/**
 * The failures that the resolver can meet, as values. `RepositoryException`
 * is the checked repository exception: it carries either a message of its own
 * or the cause it wraps, never both.
 */
module Exceptions {

  /** A failure of the XML unmarshaller (a `JAXBException`); its detail is opaque. */
  datatype ParseError = ParseError(detail: string)

  /** A failure to build a URL from the repository directory and a relative path. */
  datatype UrlError = UriSyntax(detail: string) | MalformedUrl(detail: string)

  /** A failure to open, read or close a stream (an `IOException`). */
  datatype IoError = IoError(detail: string)

  /** What a repository exception may wrap. */
  datatype Cause = JaxbCause(parse: ParseError) | UrlCause(url: UrlError)

  /** The checked repository exception, built from a message or from a cause. */
  datatype RepositoryException = MessageOnly(message: string) | CauseOnly(cause: Cause)

  /** The one message the resolver itself raises. */
  const UnknownVersionMessage: string := "Unknown artifact version"
}
