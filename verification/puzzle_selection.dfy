/** The puzzle picker of the index page: the catalogue sorted by descending
    id, the first entry selected initially, and the grid of the selected
    puzzle rendered, or nothing when no puzzle has the selected id. */
module PuzzleSelection {
  import opened Results
  import opened PuzzleTypes
  import opened Search
  import Grid

  /** Ids never increase along the list. */
  predicate DescendingById(s: seq<ArrowWord>)
  {
    forall i, j :: 0 <= i < j < |s| ==> s[i].id >= s[j].id
  }

  /** Inserts `p` into a list ordered by descending id, in front of the first
      entry whose id is not larger, so that earlier entries stay in front of
      later entries with the same id. */
  function InsertById(p: ArrowWord, s: seq<ArrowWord>): (r: seq<ArrowWord>)
    requires DescendingById(s)
    ensures DescendingById(r)
    ensures multiset(r) == multiset(s) + multiset{p}
    ensures |r| == |s| + 1 && (r[0] == p || (|s| > 0 && r[0] == s[0]))
  {
    if |s| == 0 || s[0].id <= p.id then
      [p] + s
    else
      var rest := InsertById(p, s[1..]);
      assert s == [s[0]] + s[1..];
      assert s[0].id >= rest[0].id;
      [s[0]] + rest
  }

  /** `arrowWords.sort((a, b) => b.id - a.id)`: the catalogue ordered by
      descending id, a permutation of its input. */
  function SortById(s: seq<ArrowWord>): (r: seq<ArrowWord>)
    ensures DescendingById(r)
    ensures multiset(r) == multiset(s)
  {
    if |s| == 0 then []
    else
      assert s == [s[0]] + s[1..];
      InsertById(s[0], SortById(s[1..]))
  }

  /** The entries carrying id `id`, in list order. */
  function WithId(s: seq<ArrowWord>, id: int): seq<ArrowWord>
  {
    if |s| == 0 then []
    else (if s[0].id == id then [s[0]] else []) + WithId(s[1..], id)
  }

  /** Filtering a list with a given head. */
  lemma WithIdOfCons(x: ArrowWord, s: seq<ArrowWord>, id: int)
    ensures WithId([x] + s, id) == (if x.id == id then [x] else []) + WithId(s, id)
  {
    assert ([x] + s)[0] == x && ([x] + s)[1..] == s;
  }

  /** Insertion puts the new entry in front of every entry with the same id
      and leaves the others in their order. */
  lemma {:induction false} InsertByIdIsStable(p: ArrowWord, s: seq<ArrowWord>, id: int)
    requires DescendingById(s)
    ensures WithId(InsertById(p, s), id) == (if p.id == id then [p] else []) + WithId(s, id)
  {
    if |s| == 0 || s[0].id <= p.id {
      WithIdOfCons(p, s, id);
    } else {
      InsertByIdIsStable(p, s[1..], id);
      var rest := InsertById(p, s[1..]);
      WithIdOfCons(s[0], rest, id);
      WithIdOfCons(s[0], s[1..], id);
      assert s == [s[0]] + s[1..];
      assert s[0].id != id || p.id != id;
    }
  }

  /** The sort is stable: for every id, the entries carrying it appear in
      the sorted list in the order they had in the catalogue. */
  lemma {:induction false} SortByIdIsStable(s: seq<ArrowWord>, id: int)
    ensures WithId(SortById(s), id) == WithId(s, id)
  {
    if |s| > 0 {
      SortByIdIsStable(s[1..], id);
      InsertByIdIsStable(s[0], SortById(s[1..]), id);
    }
  }

  /** The first entry of the sorted catalogue has the largest id of all. */
  lemma SortedHeadIsLargest(s: seq<ArrowWord>)
    requires |s| > 0
    ensures |SortById(s)| > 0
    ensures SortById(s)[0] in s
    ensures forall p :: p in s ==> p.id <= SortById(s)[0].id
  {
  }

  /** The initially selected id, `puzzles[0].id`: the largest id of the
      catalogue; reading it from an empty catalogue throws. */
  function InitialPuzzleId(arrowWords: seq<ArrowWord>): (r: Result<int, string>)
    ensures r.Failure? <==> |arrowWords| == 0
    ensures r.Success? ==>
      (exists p :: p in arrowWords && p.id == r.value)
      && forall p :: p in arrowWords ==> p.id <= r.value
  {
    var puzzles := SortById(arrowWords);
    if |puzzles| == 0 then
      assert |multiset(arrowWords)| == 0;
      Failure("TypeError: Cannot read properties of undefined (reading 'id')")
    else
      SortedHeadIsLargest(arrowWords);
      Success(puzzles[0].id)
  }

  /** `puzzles.find(puzzle => String(puzzle.id) === puzzleId)`, with the
      string comparison read as a comparison of ids. */
  function SelectPuzzle(puzzles: seq<ArrowWord>, puzzleId: int): (r: Option<ArrowWord>)
    ensures r.None? <==> |WithId(puzzles, puzzleId)| == 0
    ensures r.Some? ==> r.value == WithId(puzzles, puzzleId)[0]
  {
    var found := Find(puzzles, (p: ArrowWord) => p.id == puzzleId);
    if found.Some? then
      FirstFoundHeadsWithId(puzzles, puzzleId, found.value);
      found
    else
      NoneFoundMeansNoneWithId(puzzles, puzzleId);
      found
  }

  /** The element `find` returns is the first entry carrying the id. */
  lemma FirstFoundHeadsWithId(puzzles: seq<ArrowWord>, puzzleId: int, p: ArrowWord)
    requires Find(puzzles, (q: ArrowWord) => q.id == puzzleId) == Some(p)
    ensures |WithId(puzzles, puzzleId)| > 0 && WithId(puzzles, puzzleId)[0] == p
  {
    var i :| 0 <= i < |puzzles| && puzzles[i] == p && puzzles[i].id == puzzleId
      && forall j :: 0 <= j < i ==> puzzles[j].id != puzzleId;
    WithIdStartsAtFirstMatch(puzzles, puzzleId, i);
  }

  /** No entry carries an id that `find` does not find. */
  lemma {:induction false} NoneFoundMeansNoneWithId(puzzles: seq<ArrowWord>, puzzleId: int)
    requires forall i :: 0 <= i < |puzzles| ==> puzzles[i].id != puzzleId
    ensures WithId(puzzles, puzzleId) == []
  {
    if |puzzles| > 0 {
      NoneFoundMeansNoneWithId(puzzles[1..], puzzleId);
    }
  }

  /** The first entry carrying `id` heads the list of all entries carrying it. */
  lemma {:induction false} WithIdStartsAtFirstMatch(s: seq<ArrowWord>, id: int, k: int)
    requires 0 <= k < |s| && s[k].id == id
    requires forall j :: 0 <= j < k ==> s[j].id != id
    ensures |WithId(s, id)| > 0 && WithId(s, id)[0] == s[k]
    decreases k
  {
    if k > 0 {
      WithIdStartsAtFirstMatch(s[1..], id, k - 1);
    }
  }

  /** Selecting from the sorted catalogue finds the first catalogue entry
      with the selected id, because the sort is stable. */
  lemma SelectionIsFirstWithId(arrowWords: seq<ArrowWord>, puzzleId: int)
    ensures var selected := SelectPuzzle(SortById(arrowWords), puzzleId);
      selected.Some? ==>
        |WithId(arrowWords, puzzleId)| > 0 && selected.value == WithId(arrowWords, puzzleId)[0]
  {
    var puzzles := SortById(arrowWords);
    var selected := SelectPuzzle(puzzles, puzzleId);
    if selected.Some? {
      var i :| 0 <= i < |puzzles| && puzzles[i] == selected.value && puzzles[i].id == puzzleId
        && forall j :: 0 <= j < i ==> puzzles[j].id != puzzleId;
      WithIdStartsAtFirstMatch(puzzles, puzzleId, i);
      SortByIdIsStable(arrowWords, puzzleId);
    }
  }

  /** The index page. Reading the initial selection throws on an empty
      catalogue, before any selection is looked up; otherwise the page
      renders the grid of the first catalogue entry carrying the selected
      id, or nothing when no entry carries it. */
  function IndexView(arrowWords: seq<ArrowWord>, puzzleId: int)
    : (r: Result<Option<seq<seq<Grid.CellView>>>, string>)
    ensures r.Failure? <==> |arrowWords| == 0
    ensures r.Failure? ==> InitialPuzzleId(arrowWords) == Failure(r.error)
    ensures r.Success? ==> (r.value.None? <==> forall p :: p in arrowWords ==> p.id != puzzleId)
    ensures r.Success? && r.value.Some? ==>
      |WithId(arrowWords, puzzleId)| > 0
      && r.value.value == Grid.RenderGrid(WithId(arrowWords, puzzleId)[0].description)
  {
    var initial := InitialPuzzleId(arrowWords);
    if initial.Failure? then
      Failure(initial.error)
    else
      var puzzles := SortById(arrowWords);
      var puzzle := SelectPuzzle(puzzles, puzzleId);
      if puzzle.None? then
        assert forall p :: p in arrowWords ==> p.id != puzzleId by {
          forall p | p in arrowWords ensures p.id != puzzleId {
            assert p in multiset(puzzles);
          }
        }
        Success(None)
      else
        assert puzzle.value in multiset(arrowWords);
        SelectionIsFirstWithId(arrowWords, puzzleId);
        Success(Some(Grid.RenderGrid(puzzle.value.description)))
  }

  /** The page renders a grid for the initial selection of a non-empty
      catalogue, and it is the grid of a puzzle with the largest id. */
  lemma InitialSelectionRenders(arrowWords: seq<ArrowWord>)
    requires |arrowWords| > 0
    ensures InitialPuzzleId(arrowWords).Success?
    ensures var id := InitialPuzzleId(arrowWords).value;
      IndexView(arrowWords, id).Success? && IndexView(arrowWords, id).value.Some?
      && forall p :: p in arrowWords ==> p.id <= id
  {
  }
}
