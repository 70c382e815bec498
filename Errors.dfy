/** The errors the enrollment service can end with. */
module Errors {

  /**
   * NotFound is `notFoundError()`, the only error the service throws on purpose:
   * a malformed CEP, a failed lookup and a missing enrollment all end in it.
   * TypeError is what the JavaScript runtime throws when the service destructures
   * `null` or `undefined`; only the as-written response mapper can produce it.
   */
  datatype Error = NotFound | TypeError
}
