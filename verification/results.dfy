/** The two ways the puzzle scripts can stop on bad input, and the
    success-or-error value the model returns in place of a raised exception. */
module Results {

  /** Why a line could not be turned into a number.
      - NoDigits: the text holds no digit character, so the digit list is
        empty (Day 1 indexes it, Day 2 hands "" to `int`).
      - NoMatchingEntry: no entry of a game mentions the colour, so the
        maximum is taken over an empty list. */
  datatype Error =
    | NoDigits(text: string)
    | NoMatchingEntry(color: string)

  datatype Result<+T> = Ok(value: T) | Err(error: Error)
}
