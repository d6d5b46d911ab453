/**
 * The bot's exception hierarchy (utils/exceptions.py) as one datatype: every
 * constructor is a subclass of `BotException` and carries the message the
 * source passes to the exception's constructor.
 */
module Errors {

  datatype BotError =
    | TranscriptError(message: string)
    | ModelError(message: string)
    | ValidationError(message: string)
    | ConfigurationError(message: string)
    | DatabaseError(message: string)
    | RateLimitError(message: string)
    | TimeoutError(message: string)
}
