/**
 * The two failure-carrying shapes the model uses in place of JavaScript's
 * `null` returns and early `interaction.reply` exits.
 */
module Wrappers {

  /** `None` plays the part of the source's `null` (or `NaN`, for numbers). */
  datatype Option<+T> = None | Some(value: T)

  /** A command outcome: the value the handler goes on with, or the reply that ended it. */
  datatype Result<+T, +E> = Ok(value: T) | Err(error: E)
}
