/** Error kinds and failure-carrying results shared by the whole ledger model.
    Each error kind stands for one exception the Python code raises; the
    phone and birthday validators raise with the fixed messages
    "Incorrect phone number format." and "Invalid date format. Use DD.MM.YYYY". */
module Outcomes {

  /** The exceptions the ledger raises, one constructor per distinct cause. */
  datatype Error =
    | InvalidPhone      // ValueError from Phone: not 10 digits after trimming
    | InvalidDate       // ValueError from Birthday: empty or not DD.MM.YYYY
    | DayOutOfRange     // ValueError from date.replace: Feb 29 in a common year
    | YearOutOfRange    // ValueError from date.replace: year past 9999
    | DateOverflow      // OverflowError from date + timedelta past 9999-12-31
    | ContactNotFound   // KeyError from AddressBook.delete
    | MissingArguments  // ValueError from unpacking too few command arguments

  datatype Option<+T> = None | Some(value: T)

  /** The value of an operation that can raise. */
  datatype Result<+T> = Ok(value: T) | Err(error: Error)

  /** The value of an operation that returns nothing but can raise. */
  datatype Outcome = Pass | Fail(error: Error)
}
