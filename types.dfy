/** Values shared by every part of the model: the error kinds that stop a run,
    the parsed stimulus records and the (identifier, text) entries of a list. */
module Types {

  datatype Option<+T> = None | Some(value: T)

  /** Every way the program stops a run: an explicit `sys.exit()` or an
      exception it does not catch. */
  datatype Error =
    | TooFewConditions               // parse_stimuli: no_conds <= 1
    | ConditionCountMismatch         // parse_stimuli: last block is not no_conds lines long
    | MalformedConfigLine(line: nat) // parse_config: a line with fewer than two fields (IndexError)
    | MissingConfigKey(key: string)  // main: a configuration key it reads is absent (KeyError)
    | MalformedRatio                 // check_ratio: "f:i" without two integers
    | DivisionByZero                 // check_ratio: a zero divisor
    | RatioMismatch                  // check_ratio: the quotients differ
    | ListNumberOutOfRange(listNo: int) // get_list_items: list_no outside 1..no_lists
    | MissingCondition(id: int, cond: int) // get_list_items: item[1][cond] raises KeyError

  datatype Result<+T> = Ok(value: T) | Err(error: Error)

  datatype Outcome = Pass | Fail(error: Error)

  /** A stimulus: its number and its condition texts, condition `c` at index `c - 1`
      (the `(item_count, this_item)` pair of parse_stimuli). */
  datatype Item = Item(id: int, conds: seq<string>)

  /** The first component of an entry: for an assigned item the string
      `str(id) + '-' + str(cond)`, kept as its two numbers (Assign.KeyText
      spells it out and Assign.KeyTextInjective shows nothing is lost); for a
      filler its integer number. */
  datatype Key = Compound(id: int, cond: int) | Number(n: int)

  /** One (identifier, text) pair of a list. */
  datatype Entry = Entry(key: Key, text: string)
}
