/** The crate's error type (src/error.rs) and its `Result` alias (src/lib.rs).

    Each constructor stands for one layer of failure: the HTTP transport, the
    parsing of a source token, and the parsing of a syndication feed. The
    payloads of the foreign error values are not modelled, except for the
    rejected input that `ParseError` carries. */
module Errors {

  datatype Error =
    | HttpError
    | ParseError(input: string)
    | RssError

  datatype Result<+T> = Ok(value: T) | Err(error: Error)
}
