/** Shapes of an arrow-words puzzle as the puzzle catalogue describes them.
    Only the parts the grid and the question cell read are kept; numbers
    the source stores as JavaScript numbers are integers here. */
module PuzzleTypes {

  /** The five arrow directions a question field can point in. */
  datatype ArrowType = RightDown | Right | UpRight | Down | LeftDown

  /** A grid coordinate: zero-based row and column. */
  datatype Coordinates = Coordinates(row: int, col: int)

  /** A grid cell holding a clue; `wordLength` is carried but not read by the grid. */
  datatype QuestionField = QuestionField(
    row: int,
    col: int,
    arrowType: ArrowType,
    question: string,
    wordLength: int)
  {
    /** The coordinates of the field, the structural view the grid matches on. */
    function Coords(): Coordinates { Coordinates(row, col) }
  }

  /** A prize field is nothing but a coordinate pair. */
  type PrizeField = Coordinates

  /** The prize word: `position` has one character per cell; the word runs
      to the right from (`row`, `col`). */
  datatype PrizeWord = PrizeWord(position: string, row: int, col: int)

  /** The grid description of one puzzle. */
  datatype Description = Description(
    rows: int,
    cols: int,
    questionFields: seq<QuestionField>,
    prizeFields: seq<PrizeField>,
    prizeWord: PrizeWord)

  /** One catalogue entry; the solution and metadata are not read by the core. */
  datatype ArrowWord = ArrowWord(id: int, info: string, description: Description)
}
