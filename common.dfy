/** Values shared by every component of the countdown widget: optional values,
    results that carry a configuration error, and the handful of JavaScript
    values the widget ever writes into a display node. */
module Common {

  datatype Option<+T> = None | Some(value: T)

  datatype Result<+T, +E> = Ok(value: T) | Err(error: E)

  /** The fatal errors that abort initialisation. The first two are the
      widget's own `throw new Error(...)`; the others are the TypeErrors the
      JavaScript engine raises when a lookup yields `null` or `undefined` and
      the code goes on to call a method on it. */
  datatype ConfigError =
    | NoCountdown               // no host element given
    | MissingDate               // data-date absent or empty
    | MalformedDate(date: string) // no DDDD-DD-DD substring: `.reduce` on null
    | MissingTimezone           // data-timezone absent: `.toLowerCase` on undefined
    | UnknownLanguage(lang: string) // no token table for the language: `.map` on undefined

  /** A value written into a display node: an integral number, NaN (what the
      arithmetic gives once the target is an invalid date), or `undefined`
      (what a property lookup gives for a key the object does not have). */
  datatype JsValue = Num(n: int) | NaN | Undefined
}
