/** How the index page renders each cell of a puzzle grid: a cell that holds
    a question field shows the question; every other cell is an input cell,
    highlighted and labelled with a 1-based number when it belongs to the
    prize word or is a prize field. */
module Grid {
  import opened Results
  import opened PuzzleTypes
  import opened Search

  /** What one grid cell renders as. An input cell carries the highlight flag
      and the label separately, as the page computes them. */
  datatype CellView =
    | QuestionCell(field: QuestionField)
    | InputCell(highlighted: bool, fieldIndex: Option<int>)

  /** `findField(row, col)`: the test a field passes when it sits at (row, col). */
  function FindField(row: int, col: int): (matches: Coordinates -> bool)
    ensures forall f :: matches(f) <==> f == Coordinates(row, col)
  {
    (field: Coordinates) => field.row == row && field.col == col
  }

  /** The same test applied to a question field through its coordinates. */
  function FindQuestion(row: int, col: int): (matches: QuestionField -> bool)
    ensures forall q :: matches(q) <==> q.Coords() == Coordinates(row, col)
  {
    var matchesField := FindField(row, col);
    assert forall q: QuestionField :: matchesField(q.Coords()) <==> q.Coords() == Coordinates(row, col);
    (q: QuestionField) => matchesField(q.Coords())
  }

  /** Reference definition of the prize-word span: the `|position|` cells of
      row `w.row` starting at column `w.col`. */
  predicate InPrizeWord(w: PrizeWord, c: Coordinates)
  {
    c.row == w.row && w.col <= c.col < w.col + |w.position|
  }

  /** The list of prize-word fields: one per character of `position`, laid
      out to the right of the prize word's start. */
  function PrizeWordFields(w: PrizeWord): (fields: seq<Coordinates>)
    ensures |fields| == |w.position|
    ensures forall i :: 0 <= i < |fields| ==> fields[i] == Coordinates(w.row, w.col + i)
    ensures forall c :: c in fields <==> InPrizeWord(w, c)
  {
    var fields := seq(|w.position|, i => Coordinates(w.row, w.col + i));
    PrizeWordSpan(w, fields);
    fields
  }

  /** A list laid out as the prize-word fields holds exactly the span's cells. */
  lemma PrizeWordSpan(w: PrizeWord, fields: seq<Coordinates>)
    requires |fields| == |w.position|
    requires forall i :: 0 <= i < |fields| ==> fields[i] == Coordinates(w.row, w.col + i)
    ensures forall c :: c in fields <==> InPrizeWord(w, c)
  {
    forall c | InPrizeWord(w, c)
      ensures c in fields
    {
      assert fields[c.col - w.col] == c;
    }
  }

  /** Index of the first prize field at `c`, when there is one. */
  predicate FirstPrizeFieldAt(fields: seq<PrizeField>, c: Coordinates, k: int)
  {
    0 <= k < |fields| && fields[k] == c && c !in fields[..k]
  }

  /** The per-cell decision of the index page. */
  function Classify(d: Description, row: int, col: int): (v: CellView)
    // a cell holding a question field shows the first such field, and nothing else
    ensures v.QuestionCell? <==>
      exists i :: 0 <= i < |d.questionFields| && d.questionFields[i].Coords() == Coordinates(row, col)
    ensures v.QuestionCell? ==>
      exists i :: 0 <= i < |d.questionFields| && d.questionFields[i] == v.field
        && v.field.row == row && v.field.col == col
        && forall j :: 0 <= j < i ==> d.questionFields[j].Coords() != Coordinates(row, col)
    // an input cell is highlighted exactly when it shows a label
    ensures v.InputCell? ==> (v.highlighted <==> v.fieldIndex.Some?)
    // it shows a label exactly when it is in the prize word or is a prize field
    ensures v.InputCell? ==>
      (v.fieldIndex.Some? <==>
        InPrizeWord(d.prizeWord, Coordinates(row, col)) || Coordinates(row, col) in d.prizeFields)
    // the prize word takes precedence and numbers its cells from 1, left to right
    ensures v.InputCell? && InPrizeWord(d.prizeWord, Coordinates(row, col)) ==>
      v.fieldIndex == Some(col - d.prizeWord.col + 1)
    // otherwise a prize field is numbered by its first position in the list, from 1
    ensures v.InputCell? && !InPrizeWord(d.prizeWord, Coordinates(row, col))
            && Coordinates(row, col) in d.prizeFields ==>
      exists k :: FirstPrizeFieldAt(d.prizeFields, Coordinates(row, col), k) && v.fieldIndex == Some(k + 1)
  {
    var questionField := Find(d.questionFields, FindQuestion(row, col));
    if questionField.Some? then
      QuestionCell(questionField.value)
    else
      var prizeWordFieldIndex := FindIndex(PrizeWordFields(d.prizeWord), FindField(row, col));
      var isPrizeWordField := prizeWordFieldIndex > -1;
      var prizeFieldIndex := FindIndex(d.prizeFields, FindField(row, col));
      var isPrizeField := prizeFieldIndex > -1;
      var shouldDisplayPrizeIndex := isPrizeField || isPrizeWordField;
      var index := if isPrizeWordField then prizeWordFieldIndex else prizeFieldIndex;
      assert isPrizeField ==> FirstPrizeFieldAt(d.prizeFields, Coordinates(row, col), prizeFieldIndex);
      InputCell(shouldDisplayPrizeIndex, if shouldDisplayPrizeIndex then Some(index + 1) else None)
  }

  /** Every label a cell shows lies between 1 and the length of the list it
      was found in. */
  lemma LabelInRange(d: Description, row: int, col: int)
    ensures var v := Classify(d, row, col);
      v.InputCell? && v.fieldIndex.Some? ==>
        1 <= v.fieldIndex.value <=
          (if InPrizeWord(d.prizeWord, Coordinates(row, col)) then |d.prizeWord.position|
           else |d.prizeFields|)
  {
  }

  /** The i-th prize-word cell, when no question covers it, shows label i + 1:
      the prize-word columns are pairwise distinct, so the first match is i. */
  lemma PrizeWordCellLabel(d: Description, i: int)
    requires 0 <= i < |d.prizeWord.position|
    ensures var w := d.prizeWord;
      var v := Classify(d, w.row, w.col + i);
      v.InputCell? ==> v.highlighted && v.fieldIndex == Some(i + 1)
  {
  }

  /** Number of elements `Array.from({ length: n })` creates for an integer
      `n` below 2^32: a negative length is clamped to zero. (From 2^32 on,
      the array constructor throws instead.) */
  function ArrayLength(n: int): nat
  {
    if n < 0 then 0 else n
  }

  /** The rendered grid: `rows` rows of `cols` cells, each classified by its
      zero-based coordinates. A cell is a question exactly when a question
      field sits there; an input cell shows a number exactly when it lies in
      the prize word or is a prize field, and is highlighted exactly then. */
  function RenderGrid(d: Description): (grid: seq<seq<CellView>>)
    ensures |grid| == ArrayLength(d.rows)
    ensures forall i :: 0 <= i < |grid| ==> |grid[i]| == ArrayLength(d.cols)
    ensures forall i, j :: 0 <= i < |grid| && 0 <= j < |grid[i]| ==> grid[i][j] == Classify(d, i, j)
    ensures forall i, j :: 0 <= i < |grid| && 0 <= j < |grid[i]| ==>
      (grid[i][j].QuestionCell? <==>
        exists k :: 0 <= k < |d.questionFields| && d.questionFields[k].Coords() == Coordinates(i, j))
    ensures forall i, j :: 0 <= i < |grid| && 0 <= j < |grid[i]| && grid[i][j].InputCell? ==>
      && (grid[i][j].highlighted <==> grid[i][j].fieldIndex.Some?)
      && (grid[i][j].fieldIndex.Some? <==>
            InPrizeWord(d.prizeWord, Coordinates(i, j)) || Coordinates(i, j) in d.prizeFields)
  {
    seq(ArrayLength(d.rows), i => seq(ArrayLength(d.cols), j => Classify(d, i, j)))
  }

  /** A question field placed inside the grid always renders as a question
      cell, so it never receives a prize label or a highlight. */
  lemma QuestionFieldsWin(d: Description, q: QuestionField)
    requires q in d.questionFields
    requires 0 <= q.row < d.rows && 0 <= q.col < d.cols
    ensures var grid := RenderGrid(d); grid[q.row][q.col].QuestionCell?
  {
  }
}
