/** Compiled Gherkin scenarios ("pickles"), as the runner receives them from the parser. */
module Gherkin {

  /** A value that may be absent; stands for a Java reference that may be null. */
  datatype Option<+T> = None | Some(value: T)

  /** A scenario tag such as "@smoke"; tags are compared by exact string equality. */
  type Tag = string

  /** One row of a data table: its cells. */
  type PickleRow = seq<string>

  /** Where a pickle or a step comes from in a feature file. */
  datatype PickleLocation = PickleLocation(path: string, line: int)

  /** The argument a step carries: a data table or a doc string. */
  datatype Argument =
    | PickleTable(rows: seq<PickleRow>)
    | PickleString(content: string)

  datatype PickleStep = PickleStep(text: string, arguments: seq<Argument>, locations: seq<PickleLocation>)

  /**
   * A compiled scenario. The runner reads the tags reflectively, and that read
   * may fail: `tags` is None exactly when they could not be obtained.
   */
  datatype Pickle = Pickle(
    name: string,
    language: string,
    steps: seq<PickleStep>,
    tags: Option<seq<Tag>>,
    locations: seq<PickleLocation>)
}
