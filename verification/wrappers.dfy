/**
  Failure-compatible outcome types. `Option` stands for the source's `null`
  returns and `Result` for its thrown `Error`s, so that every throwing path is
  a value the contracts can talk about.
 */
module Wrappers {

  datatype Option<+T> = None | Some(value: T) {

    predicate IsFailure() {
      None?
    }

    function PropagateFailure<U>(): Option<U>
      requires None?
    {
      None
    }

    function Extract(): T
      requires Some?
    {
      value
    }
  }

  datatype Result<+R, +E> = Success(value: R) | Failure(error: E) {

    predicate IsFailure() {
      Failure?
    }

    function PropagateFailure<U>(): Result<U, E>
      requires Failure?
    {
      Failure(error)
    }

    function Extract(): R
      requires Success?
    {
      value
    }

    function ToOption(): Option<R> {
      match this
      case Success(v) => Some(v)
      case Failure(_) => None
    }
  }
}

/** The errors the source throws, each carrying the text it reports. */
module Errors {
  import opened Wrappers

  datatype Error =
    /** No "第N試合" in a match heading; parser.ts quotes the heading in its
        message, main.ts does not. */
    | OrdinalMissing(quoted: Option<string>)
    /** A log line without ':' (the throwing splitter of main.ts). */
    | ColonMissing(text: string)
    /** A log key literally named 動画 replaced the movie list with a string,
        so pushing the first movie entry fails. */
    | MovieListClobbered
    /** A movie name text without "<name>視点". */
    | ContributorMissing(nameText: string)
    /** A movie value text without a Markdown http(s) link. */
    | UrlMissing(urlMarkdownText: string)
    /** A participant name that is not a plain roster name. */
    | UnregisteredName(name: string)
}
