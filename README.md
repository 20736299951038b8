# Trivia board game state, modelled in Dafny

The page script `jeopardy.js` runs a Jeopardy-style board: it asks a trivia
service for 100 categories, samples six of them, fetches each one and samples
five of its clues, paints a table of six category titles over five rows of six
"?" cells, and reveals a clue's question and then its answer as its cell is
clicked. This project models the game state underneath the page and proves
what the script promises about it:

- `sampling.dfy` (module `Sampling`): `_.sampleSize` as a sample without
  replacement, the picked positions being an input.
- `game_data.dfy` (module `GameData`): clues, categories and their reveal
  state (`null` → "question" → "answer"), `getCategoryIds`, `getCategory`,
  the reveal transition and how far a run of setup requests gets.
- `cell_ids.dfy` (module `CellIds`): the cell id `${catI}-${clueI}`, the
  click handler's `id.split('-')` and the array lookups by the pieces.
- `board.dfy` (module `Board`): class `Game` holding the global `categories`
  list and the table (header titles, body rows of cell ids, each cell's
  content and the cells marked answered), with `fillTable`, `handleClick`,
  `setupAndStart` and the table wipe of `showLoadingView` as methods that
  update it in place.

The table is abstracted: `header` is the list of header titles, `rows` the
body's cell ids row by row, `content` what each cell (by id) displays — the
"?" icon or the HTML of a question or answer — and `answered` the cells that
carry the answered marker (`bg-success`). A click arrives as the id of the
clicked cell. The trivia service's responses and the sampled positions are
method parameters.

Behaviours of the code that the model keeps:
- A category keeps `min(5, n)` clues when the service returns `n` clues for
  it (`_.sampleSize`), not always five; a cell whose clue is missing selects
  nothing when clicked.
- The six sampled ids are distinct positions of the list; they are distinct
  ids when the service's ids are distinct (`GetCategoryIds`).
- A rejected request is not reported: the setup stops where it is, keeping
  the categories appended so far, and the table is not repainted.

## Model

| member | source | states |
|---|---|---|
| `Sampling.Sample` | jeopardy.js:51 | a sample of distinct positions has one element per pick, each the pool's element at that position, and is duplicate-free when the pool is |
| `Sampling.SampleWithoutReplacement` | jeopardy.js:32 | sampling is without replacement: the sample's multiset is contained in the pool's |
| `GameData.Step` | jeopardy.js:98-107 | one click moves a clue exactly one stage further (capped at answered), and leaves it unchanged exactly when it is already answered |
| `GameData.IterateRank` | jeopardy.js:98-107 | after k clicks a clue is min(stage + k, 2) stages revealed: clicks advance it and never move it back |
| `GameData.RevealSequence` | jeopardy.js:85-107 | from a fresh clue, the states over any run of clicks are hidden, question, answer, then answer for ever; two clicks reach the answer |
| `GameData.RevealMonotone` | jeopardy.js:98-107 | one more click never lowers how far a clue is revealed |
| `GameData.GetCategoryIds` | jeopardy.js:29-33 | min(6, n) ids, each the id of a distinct sampled record, drawn without replacement from the list's ids, pairwise distinct when the list's ids are |
| `GameData.GetCategory` | jeopardy.js:47-58 | the category keeps the fetched title and has min(5, n) clues, each hidden and carrying the question and answer text of the sampled service clue |
| `GameData.WithShowing` | jeopardy.js:96-103 | updating one clue's state changes that clue's state only: every other clue, every title and every clue count is as before |
| `GameData.FetchedBeforeFailure` | jeopardy.js:144-146 | the sequential category requests that succeed are exactly those before the first rejected one |
| `CellIds.NatToString` | jeopardy.js:79 | the number in a cell id is a canonical decimal numeral (digits, no leading zero) and starts with '0' only for zero |
| `CellIds.ParseIndex` | jeopardy.js:96 | a string selects an array element exactly when it is a canonical decimal numeral |
| `CellIds.DigitsValueOfNatToString` | jeopardy.js:79 | reading back the numeral of n gives n |
| `CellIds.NatToStringOfDigitsValue` | jeopardy.js:96 | a canonical numeral is the numeral of its value |
| `CellIds.ParseIndexExact` | jeopardy.js:95-96 | a string selects element n if and only if it is the numeral of n |
| `CellIds.Split` | jeopardy.js:95 | `split('-')` yields at least one piece and no piece contains '-' |
| `CellIds.JoinSplit` | jeopardy.js:95 | splitting loses nothing: gluing the pieces with the separator gives the id back |
| `CellIds.SplitNoSeparator` | jeopardy.js:95 | a string without the separator splits into itself alone |
| `CellIds.SplitAtFirst` | jeopardy.js:95 | splitting at a first separator yields the part before it followed by the pieces of the rest |
| `CellIds.CellId` | jeopardy.js:79 | the id `${catI}-${clueI}` splits on "-" into exactly two pieces, the numerals of catI and clueI |
| `CellIds.ParseCellId` | jeopardy.js:95-96 | an id selects a position exactly when it splits into at least two pieces and the first two are canonical decimal numerals |
| `CellIds.CellIdRoundTrip` | jeopardy.js:79-96 | splitting the id built for clue q of category c and looking up its pieces selects (c, q), for every c and q |
| `CellIds.CellIdInjective` | jeopardy.js:79 | two cells have the same id if and only if they are the same position |
| `CellIds.SelectorOfParsedId` | jeopardy.js:95-108 | the selector `#${catI}-${clueI}` rebuilt from a selecting id's pieces is the id of the selected clue |
| `Board.Grid` | jeopardy.js:76-82 | the body has 5 rows of 6 cells and the cell in row q, column c selects clue q of category c |
| `Board.IdsBeforeStep` | jeopardy.js:76-81 | painting the cell of (c, q) adds exactly that cell's id to the painted ids |
| `Board.BoardIdAddress` | jeopardy.js:79-96 | every body cell id selects a position inside the 6 x 5 grid and is that position's id |
| `Board.Locate` | jeopardy.js:95-96 | a click reaches a clue only at an existing category and clue index |
| `Board.LocateCell` | jeopardy.js:79-96 | a click on the cell painted for (c, q) reaches clue (c, q) exactly when the game has that clue |
| `Board.Game.constructor` | jeopardy.js:21 | the page starts with no categories and an empty table |
| `Board.Game.FillTable` | jeopardy.js:68-83 | the header is the first six titles in order and the body is the 5 x 6 grid of ids all showing "?" with no answered marker, whatever was displayed before; with fewer than six categories the header ends empty and the body is untouched |
| `Board.HandleClick` | jeopardy.js:93-109 | the click state machine: the selected clue advances one reveal stage and every other clue is unchanged; its cell, if displayed, shows the question on the first click and the answer on the second, and the answer also marks the clicked cell answered; no other cell changes; a click on an answered clue, or on an id that selects no clue, changes nothing |
| `Board.RepeatedClicks` | jeopardy.js:93-109 | any number of clicks on one cell keeps selecting the same clue and takes it through the reveal order, `Iterate` of its state: question, then answer, then no further change |
| `Board.FreshBoardInStep` | jeopardy.js:68-83 | a freshly painted table over six or more all-hidden categories mirrors the game: every cell shows "?" and none is marked answered |
| `Board.ClickKeepsInStep` | jeopardy.js:93-109 | a click on a displayed cell keeps the table mirroring the game: every cell shows what its clue's state says and carries the answered marker exactly when the answer shows |
| `Board.Game.Click` | jeopardy.js:93-109 | updating the clue and the cell in place gives exactly the game state, display and outcome `HandleClick` describes |
| `Board.Game.PaintRow` | jeopardy.js:77-81 | one body row holds the ids of clue `clueI` of the six categories left to right, and each painted cell shows "?" |
| `Board.Game.PaintBody` | jeopardy.js:75-82 | the body is the 5 x 6 grid of ids, every cell shows "?" and no cell is marked answered |
| `Board.Game.ShowLoadingView` | jeopardy.js:115-117 | the header and body are emptied: no cell is displayed and none is marked answered |
| `Board.Game.SetupAndStart` | jeopardy.js:141-148 | after setup `categories` holds, in sampled order, one hidden category per successfully fetched id, up to the first rejected request; with all six fetched the table is freshly painted (so in step with the game by `FreshBoardInStep`); with fewer it ends with an empty header and the body untouched; a rejected request is reported exactly when one of the requested categories was rejected, and leaves the table as it was; a rejected list request changes nothing |

## Left out

- The HTTP requests (jeopardy.js:30, 48) are network I/O: their settled results are the parameters `categoryList` and `fetch`; the URLs and JSON parsing are not modelled.
- The randomness of `_.sampleSize` (jeopardy.js:32, 51) is a foreign library call: the positions it drew are the parameters `idPicks` and `cluePicks`, constrained to min(n, size) pairwise distinct positions in any order.
- The spinner, the fixed two-second timer that calls `setupAndStart` and `hideLoadingView` (jeopardy.js:118-123, 129-132) are timing and page decoration; the "Restart" label (jeopardy.js:131) and the event wiring (jeopardy.js:150-155) are page plumbing. The table wipe that precedes every setup (jeopardy.js:116-117) is modelled as `Board.Game.ShowLoadingView`.
- Board.Game.SetupAndStart: modelled as running alone on whatever table it finds. Two Start clicks within the request delay run two setups at once. When the second setup resets `categories` (jeopardy.js:143), the push of the first setup that is waiting on its request goes into the discarded list, because `categories.push` is read before the `await` (jeopardy.js:145); the first setup's later pushes land in the new list, so `categories` can hold more than six or mixed categories. Overlapping setups are not modelled.
- Board.Game.SetupAndStart: `fetch` is a function of the category id, so two requests for the same id would settle the same way, which the page does not guarantee. No proved property depends on this, and the ids requested are distinct whenever the service's ids are.
- HTML, CSS classes and jQuery element construction (jeopardy.js:69-82, 104, 108) are abstracted into the header titles, the rows of cell ids, the cell contents and the set of answered cells; the HTML of a question or answer is kept as an opaque string.
- `closest('td')` (jeopardy.js:94) is a DOM traversal: a click arrives as the clicked cell's id.
- Board.Game.Click: the answered marker is put on the clicked cell; in the page it goes on `evt.target`, which is an element inside the cell when the click lands on markup inside the question text.
- Board.Game.Click: only canonical decimal numerals select an array element; other property names such as `length` are treated as selecting nothing. Cells painted by `fillTable` never carry such ids.
- Board.ClickKeepsInStep: the table is shown to stay in step with the game only for clicks on displayed cells; a click on an id that is not a displayed cell is handled as the code does (`Board.HandleClick`) but may break that correspondence.
- Answers are modelled as strings; the service may return other JSON values, which the page shows as their text.
- Aliasing of clue objects is not modelled: `categories` is a sequence of values updated by replacing the changed clue, which is how the script's single in-place field assignment behaves since no clue object is shared.
