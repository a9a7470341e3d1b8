/** The Python exceptions the modelled code can raise. Each one unwinds to the
    caller unchanged: none of the modelled functions catches anything. */
module Exceptions {

  datatype Exception =
    /** `list index out of range`: a reply or a file name with too few fields. */
    | IndexError
    /** `int()` or `float()` rejected the given text. */
    | ValueError(text: string)
    /** Division by zero: a mean over no trials, a zero time scale, or a zero
        step given to the time-axis range. */
    | ZeroDivisionError
}
