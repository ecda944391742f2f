/** What a fixture's `tearDownClass` reports for its example: the line
    `<exampleName> : .` or `<exampleName> : F`. */
module Report {
  /** The mark printed for the example. */
  datatype Mark = Dot | F
}
