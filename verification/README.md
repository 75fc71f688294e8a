# Multiplayer arrow words — a Dafny model of the grid, question cell, configuration check and tables

The application lets players pick an arrow-words puzzle, open a shared room
and fill the grid together. This project models the pure decisions its pages
and server make, and the database constraints it declares:

- **Grid** (`grid.dfy`, `search.dfy`): how the index page classifies each grid
  cell of a puzzle `Description` — a question cell when a question field sits
  there, otherwise an input cell that is highlighted and numbered (from 1) when
  it belongs to the prize word or is a prize field, the prize word taking
  precedence. `findField`, `find` and `findIndex` are modelled as written.
- **Puzzle picker** (`puzzle_selection.dfy`): the catalogue sorted by
  descending id, the first entry selected initially (which throws on an
  empty catalogue), the grid of the first entry with the selected id
  rendered, or nothing when no entry has the selected id.
- **Question cell** (`question.dfy`): every `+` of a clue becomes a line break,
  and exactly one of the five arrow decorations is enabled per arrow type.
- **Configuration** (`config.dfy`): start-up fails with
  `Missing key <key> in config.env` for the first undefined entry, and returns
  the record unchanged otherwise.
- **Tables** (`schema.dfy`): the `room` and `cell` tables as one state with
  the declared constraints (primary keys, `unique(row, col, room_id)`, the
  foreign key to `room`, `NOT NULL`, 32-bit `integer`, `char(1)`) as an
  invariant; inserts that would break it are refused and store nothing.
  Because the value column is `char(1) NOT NULL`, an empty value is stored
  as one space (`Schema.StoreChar1`, following section 8.3 "Character
  Types" of the PostgreSQL manual).

`results.dfy` holds `Option` (JavaScript `undefined`) and `Result` (a thrown
error or a refused insert); `puzzle_types.dfy` holds the puzzle shapes.

The room page (`app/routes/rooms.$roomId.tsx:35-86`) repeats the index page's
cell classification word for word; `Grid.Classify` describes both.

## Model

| member | source | states |
|---|---|---|
| Search.FindIndex | app/routes/_index.tsx:67-75 | `findIndex` answers -1 exactly when no element matches, else the position of a matching element with no match before it |
| Search.Find | app/routes/_index.tsx:60-62 | `find` answers nothing exactly when no element matches, else the first matching element |
| Grid.FindField | app/routes/_index.tsx:18-19 | the matcher accepts a coordinate pair exactly when it is the pair (row, col) |
| Grid.FindQuestion | app/routes/_index.tsx:60-62 | a question field is matched exactly when its coordinates are (row, col) |
| Grid.PrizeWordFields | app/routes/_index.tsx:29-35 | one field per character of `position`, entry i at (prizeWord.row, prizeWord.col + i); the list holds exactly the cells of the prize-word span |
| Grid.PrizeWordSpan | app/routes/_index.tsx:29-35 | a list laid out as the prize-word fields contains a coordinate iff it lies in the span |
| Grid.Classify | app/routes/_index.tsx:60-89 | question iff some question field is at the cell (and then the first one); an input cell is highlighted iff it shows a number, shows one iff in the prize word or a prize field, the prize word's position wins, otherwise the first prize-field position, both counted from 1 |
| Grid.LabelInRange | app/routes/_index.tsx:67-88 | every displayed number lies between 1 and the length of the list it was found in |
| Grid.PrizeWordCellLabel | app/routes/_index.tsx:29-35 | the i-th prize-word cell, when not a question, is highlighted and numbered i + 1 |
| Grid.RenderGrid | app/routes/_index.tsx:36-94 | `rows` rows of `cols` cells (a negative count gives none); an in-grid cell is a question iff a question field sits there, and an input cell is numbered iff it lies in the prize-word span or is a prize field, highlighted exactly then |
| Grid.QuestionFieldsWin | app/routes/_index.tsx:60-65 | a question field inside the grid always renders as a question, never highlighted or numbered |
| PuzzleSelection.InsertById | app/routes/_index.tsx:21 | inserting into a list ordered by descending id keeps it ordered and adds exactly the one entry |
| PuzzleSelection.SortById | app/routes/_index.tsx:21 | the sorted catalogue is ordered by descending id and is a permutation of the catalogue |
| PuzzleSelection.InsertByIdIsStable | app/routes/_index.tsx:21 | insertion puts the new entry before every entry with the same id and keeps the others' order |
| PuzzleSelection.WithIdOfCons | app/routes/_index.tsx:21 | the entries carrying an id in a list with a given head are that head, when it carries the id, followed by those of the rest |
| PuzzleSelection.SortByIdIsStable | app/routes/_index.tsx:21 | the sort is stable: for every id, the entries carrying it keep their catalogue order |
| PuzzleSelection.SortedHeadIsLargest | app/routes/_index.tsx:21-23 | the first sorted entry belongs to the catalogue and has the largest id |
| PuzzleSelection.InitialPuzzleId | app/routes/_index.tsx:21-23 | the initial selection fails iff the catalogue is empty, else it is the id of a catalogue entry and no entry has a larger id |
| PuzzleSelection.IndexView | app/routes/_index.tsx:21-37 | the page throws iff the catalogue is empty (the initial `puzzles[0].id`); otherwise nothing is rendered iff no entry has the selected id, else the grid of the first catalogue entry with that id |
| PuzzleSelection.SelectPuzzle | app/routes/_index.tsx:24 | `find` by id answers nothing iff no entry carries the id, else the first entry carrying it |
| PuzzleSelection.FirstFoundHeadsWithId | app/routes/_index.tsx:24 | the entry `find` returns heads the list of entries carrying the id |
| PuzzleSelection.NoneFoundMeansNoneWithId | app/routes/_index.tsx:24 | when `find` finds nothing, no entry carries the id |
| PuzzleSelection.WithIdStartsAtFirstMatch | app/routes/_index.tsx:24 | the first entry carrying an id heads the list of all entries carrying it |
| PuzzleSelection.SelectionIsFirstWithId | app/routes/_index.tsx:21-24 | `find` over the sorted list returns the first catalogue entry with the selected id, since the sort is stable |
| PuzzleSelection.InitialSelectionRenders | app/routes/_index.tsx:21-26 | for a non-empty catalogue the initial selection renders a grid, of a puzzle with the largest id |
| Question.ReplacePlus | app/components/question.tsx:12 | same length; each `+` becomes a line break and every other character stays at its position |
| Question.ReplacePlusRemovesPlus | app/components/question.tsx:12 | the displayed text contains no `+` |
| Question.ReplacePlusKeepsPlainText | app/components/question.tsx:12 | text without `+` is displayed unchanged |
| Question.ReplacePlusIdempotent | app/components/question.tsx:12 | applying the replacement twice equals applying it once |
| Question.ArrowClassIsExclusive | app/components/question.tsx:20-31 | each arrow type enables exactly one decoration, its own |
| Question.ArrowClassIsOneToOne | app/components/question.tsx:20-31 | distinct arrow types enable disjoint decorations and every decoration is enabled by some arrow type |
| Question.RenderQuestion | app/components/question.tsx:12-34 | the cell shows the clue with each `+` turned into a line break and every other character kept in place (so no `+`, same length), and the one decoration of its arrow type |
| Config.SanitizeEntries | app/config.server.ts:19-26 | succeeds iff every entry is defined, then returns the entries unchanged in order; otherwise fails with `Missing key <key> in config.env` for the first undefined entry |
| Config.GetSanitizedConfig | app/config.server.ts:3-26 | succeeds iff both keys are defined, returning their values unchanged; names `NODE_ENV` when it is undefined, else `DATABASE_URL` |
| Schema.EmptyIsValid | app/db/schema.server.ts:14-37 | empty tables satisfy every constraint |
| Schema.StoreChar1 | app/db/schema.server.ts:30 | a value is accepted iff everything after its first character is spaces; the stored value has exactly one character and equals the input up to trailing spaces |
| Schema.TrailingSpacesDoNotCount | app/db/schema.server.ts:30 | spaces after a position do not change a string once trailing spaces are dropped |
| Schema.InsertRoom | app/db/schema.server.ts:14-19 | a room insert succeeds iff its puzzle is not `NULL` and its id is new; a refusal names the `NULL` puzzle or the taken id; success keeps every constraint and only appends the room |
| Schema.InsertCell | app/db/schema.server.ts:21-37 | a cell insert succeeds iff no column is null, coordinates fit 32 bits, the value fits one character, the id and the (row, col, room) key are new and the room exists; a refusal reports a violation that really occurs; success appends exactly the new cell and keeps every constraint |
| Schema.AppendCellKeepsValid | app/db/schema.server.ts:24-35 | appending a well-formed cell with a fresh id, a free key and an existing room keeps every constraint |
| Schema.CellsAt | app/db/schema.server.ts:35 | the cells found are exactly the stored cells at that (row, col, room) |
| Schema.NothingAtFreeCoordinate | app/db/schema.server.ts:35 | no cell is found at a key no cell carries |
| Schema.OneCellPerCoordinate | app/db/schema.server.ts:35 | in a state with distinct keys at most one cell is stored per (row, col, room) |
| Schema.Execute | app/db/schema.server.ts:14-37 | one insert, accepted or refused, leaves the tables satisfying every constraint |
| Schema.ExecuteAll | app/db/schema.server.ts:14-37 | every state reached by a sequence of inserts satisfies every constraint, and earlier rows are never changed or removed |

## Left out

- The React components, the `Select` wiring, `useState`, Tailwind class strings and `cn`: user interface; only what each cell and the question cell render is modelled.
- The event emitter wrapper and the server-sent-event hook (`app/lib/emitter.server.ts`, `app/lib/sse.ts`): their publish/subscribe behaviour lives in libraries that are not part of this model.
- The database connection and migration configuration (`app/db/config.server.ts`, `drizzle.config.ts`): I/O and tooling.
- `getConfig` reading `process.env`: I/O; the environment record is an input of `Config.GetSanitizedConfig`.
- No upsert or endpoint is modelled; the tables only take inserts.
- The puzzle catalogue `data/arrowwords` is not part of this model; it is an input sequence.
- `puzzles.find(puzzle => String(puzzle.id) === puzzleId)` compares decimal strings; the model compares the integer ids directly, which agrees because distinct integers print differently.
- Grid.PrizeWordFields: strings are sequences of Unicode characters, so `|position|` counts characters; `position.length` in JavaScript counts UTF-16 code units, and a character outside the Basic Multilingual Plane would give the page two fields where the model has one.
- PuzzleSelection.SortById: `arrowWords.sort(...)` reorders the shared, imported catalogue array in place and returns it; the model returns a new sorted sequence and does not model that other importers of the catalogue see it reordered.
- Grid.RenderGrid: `Array.from({ length: n })` throws a RangeError when `rows` or `cols` is 2^32 or more; the model renders a grid of that size instead, and this error is not modelled.
- Puzzle numbers are integers: non-integer or `NaN` row, column or id values of a JavaScript number are not modelled.
- Schema.InsertCell: when one insert breaks several constraints at once, the model reports the first in column order then key, unique and foreign-key order; which one PostgreSQL names is not modelled, only that the reported one really occurs.
- Uuid generation (`defaultRandom`) and the clock (`defaultNow`) are parameters; the textual `uuid` format is not modelled, and `updatedAt` is never changed because no update exists in the modelled files.
- `QuestionField.wordLength`, the solution and the metadata of a puzzle are carried or dropped as data; no modelled code reads them.
