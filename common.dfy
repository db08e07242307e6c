/** Shared result and error types of the calendar pipeline. */
module Common {

  type byte = x: int | 0 <= x < 256

  datatype Option<T> = None | Some(value: T)

  /** The exceptions the script can raise while turning scraped text into events. */
  datatype Error =
    | IndexError                    // process_event given a node with no text fragments
    | KeyError(key: string)         // a record lacks the "event" or "day" key
    | UnknownTimestamp(fragment: string)  // "Unkown timestamp '<fragment>'" from parse_duration
    | DateFormat(dayLabel: string)   // the day label does not match "%b %d" in 1900
    | YearRange(year: int)          // datetime.replace(year=...) outside 1..9999
    | Unpack(count: nat)            // tuple unpacking saw the wrong number of values
    | Overflow                      // datetime + timedelta left the years 1..9999

  datatype Result<T> = Ok(value: T) | Err(error: Error)
}
