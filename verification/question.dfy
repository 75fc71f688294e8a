/** The question cell: its clue text, where each `+` of the catalogue marks a
    line break, and the one arrow decoration chosen by its arrow type. */
module Question {
  import opened PuzzleTypes

  /** `text.replaceAll('+', '\n')`. */
  function ReplacePlus(text: string): (r: string)
    ensures |r| == |text|
    ensures forall i :: 0 <= i < |text| ==> r[i] == (if text[i] == '+' then '\n' else text[i])
  {
    if |text| == 0 then ""
    else [if text[0] == '+' then '\n' else text[0]] + ReplacePlus(text[1..])
  }

  /** The displayed text never holds a `+`. */
  lemma ReplacePlusRemovesPlus(text: string)
    ensures '+' !in ReplacePlus(text)
  {
  }

  /** Text without `+` is displayed unchanged. */
  lemma ReplacePlusKeepsPlainText(text: string)
    requires '+' !in text
    ensures ReplacePlus(text) == text
  {
  }

  /** Replacing twice is replacing once. */
  lemma ReplacePlusIdempotent(text: string)
    ensures ReplacePlus(ReplacePlus(text)) == ReplacePlus(text)
  {
  }

  /** The five arrow decorations a question cell can carry, one per entry of
      the class map the cell passes to `cn`. */
  datatype ArrowClass =
    | ArrowRightDownClass
    | ArrowRightClass
    | ArrowUpRightClass
    | ArrowDownClass
    | ArrowLeftDownClass

  /** The class map of the question cell: each decoration with the condition
      that enables it, in the order the cell lists them. */
  function ArrowClassMap(arrowType: ArrowType): seq<(ArrowClass, bool)>
  {
    [ (ArrowRightDownClass, arrowType == RightDown),
      (ArrowRightClass, arrowType == Right),
      (ArrowUpRightClass, arrowType == UpRight),
      (ArrowDownClass, arrowType == Down),
      (ArrowLeftDownClass, arrowType == LeftDown) ]
  }

  /** The decorations whose condition holds. */
  function EnabledArrowClasses(arrowType: ArrowType): set<ArrowClass>
  {
    set entry | entry in ArrowClassMap(arrowType) && entry.1 :: entry.0
  }

  /** Reference pairing of arrow types and decorations. */
  function ArrowClassOf(arrowType: ArrowType): ArrowClass
  {
    match arrowType
    case RightDown => ArrowRightDownClass
    case Right => ArrowRightClass
    case UpRight => ArrowUpRightClass
    case Down => ArrowDownClass
    case LeftDown => ArrowLeftDownClass
  }

  /** Each arrow type enables exactly one decoration, its own. */
  lemma ArrowClassIsExclusive(arrowType: ArrowType)
    ensures EnabledArrowClasses(arrowType) == {ArrowClassOf(arrowType)}
  {
  }

  /** Distinct arrow types enable distinct decorations, and every decoration
      is enabled by some arrow type. */
  lemma ArrowClassIsOneToOne(a: ArrowType, b: ArrowType, c: ArrowClass)
    ensures a != b ==> EnabledArrowClasses(a) !! EnabledArrowClasses(b)
    ensures exists t :: EnabledArrowClasses(t) == {c}
  {
    ArrowClassIsExclusive(a);
    ArrowClassIsExclusive(b);
    var t := match c
      case ArrowRightDownClass => RightDown
      case ArrowRightClass => Right
      case ArrowUpRightClass => UpRight
      case ArrowDownClass => Down
      case ArrowLeftDownClass => LeftDown;
    ArrowClassIsExclusive(t);
  }

  /** What a question cell displays. */
  datatype QuestionView = QuestionView(text: string, arrowClasses: set<ArrowClass>)

  /** The question cell of a field: its text with line breaks and its single
      arrow decoration. */
  function RenderQuestion(q: QuestionField): (v: QuestionView)
    ensures '+' !in v.text && |v.text| == |q.question|
    ensures forall i :: 0 <= i < |q.question| ==>
      v.text[i] == (if q.question[i] == '+' then '\n' else q.question[i])
    ensures v.arrowClasses == {ArrowClassOf(q.arrowType)}
  {
    ReplacePlusRemovesPlus(q.question);
    ArrowClassIsExclusive(q.arrowType);
    QuestionView(ReplacePlus(q.question), EnabledArrowClasses(q.arrowType))
  }
}
