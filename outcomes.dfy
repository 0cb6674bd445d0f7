/** The recoverable error results the toolkit reports. */
module Outcomes {

  /** A value or an error message, as Rust's `Result<T, String>` / `Result<T, &str>`. */
  datatype Result<T> = Ok(value: T) | Err(message: string)

  /** An optional value. */
  datatype Option<T> = None | Some(value: T)

  /** Reported by a slider lookup whose index is past the sliders present. */
  const SliderIndexMessage := "Cannot return the value of a Slider that is out of index range"

  /** Reported by a handler draw with Buttons present and no action function set. */
  const NoActionMessage := "Cannot draw. Actions function for buttons has not been set."
}
