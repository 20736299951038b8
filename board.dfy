/** The board of the page and the game state behind it: the global
    `categories` list, the table's header and body, and the three
    operations that change them — building the game, painting the table and
    handling a click on a cell. */
module Board {
  import opened Sampling
  import opened GameData
  import opened CellIds

  /** What a body cell displays: the "?" icon, or the HTML of a question or
      an answer. */
  datatype Content = Placeholder | Text(html: string)

  /** What a click on a cell did. `NoSuchClue` is the lookup that throws in
      the page script (an id that selects no clue); nothing has changed then. */
  datatype ClickOutcome = ShowedQuestion | ShowedAnswer | AlreadyAnswered | NoSuchClue

  /** How a setup ended: the table is painted, a request was rejected, or
      fewer than six categories made painting the header throw. */
  datatype SetupOutcome = Started | RequestFailed | TooFewCategories

  /** What the cell of a clue shows once the clue is in a given state. */
  function Shown(clue: Clue): Content
  {
    match clue.showing
    case Hidden => Placeholder
    case Question => Text(clue.question)
    case Answer => Text(clue.answer)
  }

  /** The ids of the table body, row by row: row `q` holds the cells of clue
      `q` of each category, left to right. The body has 5 rows of 6 cells,
      and the cell in row `q`, column `c` is addressed as clue `q` of
      category `c`. */
  function Grid(): (g: seq<seq<string>>)
    ensures |g| == NumClues
    ensures forall q :: 0 <= q < NumClues ==> |g[q]| == NumCategories
    ensures forall q, c :: 0 <= q < NumClues && 0 <= c < NumCategories ==> ParseCellId(g[q][c]) == Some((c, q))
  {
    CellIdsRoundTrip();
    seq(NumClues, q requires 0 <= q < NumClues => seq(NumCategories, c requires 0 <= c < NumCategories => CellId(c, q)))
  }

  /** The ids of all body cells. */
  ghost function BoardIds(): set<string>
  {
    set c, q | 0 <= c < NumCategories && 0 <= q < NumClues :: CellId(c, q)
  }

  /** The ids of the first `n` body cells in the order the table is painted. */
  ghost function IdsBefore(n: nat): set<string>
  {
    set c, q | 0 <= c < NumCategories && 0 <= q < NumClues && q * NumCategories + c < n :: CellId(c, q)
  }

  lemma IdsBeforeStep(c: nat, q: nat)
    requires c < NumCategories && q < NumClues
    ensures IdsBefore(q * NumCategories + c + 1) == IdsBefore(q * NumCategories + c) + {CellId(c, q)}
  {
  }

  lemma IdsBeforeAll()
    ensures IdsBefore(NumCategories * NumClues) == BoardIds()
  {
  }

  /** A clue position is on the board exactly when its id is. */
  lemma BoardIdAddress(id: string)
    requires id in BoardIds()
    ensures ParseCellId(id).Some?
    ensures ParseCellId(id).value.0 < NumCategories && ParseCellId(id).value.1 < NumClues
    ensures id == CellId(ParseCellId(id).value.0, ParseCellId(id).value.1)
  {
    var c, q :| 0 <= c < NumCategories && 0 <= q < NumClues && id == CellId(c, q);
    CellIdRoundTrip(c, q);
  }

  /** The clue a click on the cell with id `id` reaches: the parsed position,
      if both lookups find an element. */
  function Locate(categories: seq<Category>, id: string): (r: Option<(nat, nat)>)
    ensures r.Some? ==> r.value.0 < |categories| && r.value.1 < |categories[r.value.0].clues|
  {
    match ParseCellId(id)
    case Some((c, q)) =>
      if c < |categories| && q < |categories[c].clues| then Some((c, q)) else None
    case None => None
  }

  /** A click on the cell painted for clue `q` of category `c` reaches that
      clue, exactly when the game state has it. */
  lemma LocateCell(categories: seq<Category>, c: nat, q: nat)
    ensures Locate(categories, CellId(c, q)) ==
      if c < |categories| && q < |categories[c].clues| then Some((c, q)) else None
  {
    CellIdRoundTrip(c, q);
  }

  class Game {
    /** The global `categories` list. */
    var categories: seq<Category>
    /** The titles in the table header. */
    var header: seq<string>
    /** The ids of the table body's cells, row by row. */
    var rows: seq<seq<string>>
    /** What each body cell displays, by cell id. */
    var content: map<string, Content>
    /** The cells marked as answered. */
    var answered: set<string>

    /** The page as loaded: no game and an empty table. */
    constructor ()
      ensures categories == [] && header == [] && rows == []
      ensures content == map[] && answered == {}
    {
      categories := [];
      header := [];
      rows := [];
      content := map[];
      answered := {};
    }

    /** `fillTable`: empty the header and fill it with the first six titles,
        then empty the body and paint 5 rows of 6 "?" cells with ids
        `${catI}-${clueI}`. With fewer than six categories the title lookup
        throws after the header was emptied, and the body is left as it was. */
    method FillTable() returns (ok: bool)
      modifies this
      ensures categories == old(categories)
      ensures ok <==> |categories| >= NumCategories
      ensures ok ==>
        |header| == NumCategories &&
        (forall i :: 0 <= i < NumCategories ==> header[i] == categories[i].title) &&
        rows == Grid() &&
        content.Keys == BoardIds() &&
        (forall id :: id in content ==> content[id] == Placeholder) &&
        answered == {}
      ensures !ok ==>
        header == [] && rows == old(rows) && content == old(content) && answered == old(answered)
    {
      header := [];
      var tr: seq<string> := [];
      var i := 0;
      while i < NumCategories
        invariant 0 <= i <= NumCategories && i <= |categories|
        invariant |tr| == i && forall k :: 0 <= k < i ==> tr[k] == categories[k].title
        modifies {}
      {
        if i == |categories| {
          // `categories[i]` is undefined: reading its title throws
          ok := false;
          return;
        }
        tr := tr + [categories[i].title];
        i := i + 1;
      }
      header := tr;
      PaintBody();
      ok := true;
    }

    /** The second half of `fillTable`: empty the table body and paint 5 rows
        of 6 "?" cells, the cell of clue `clueI` of category `catI` with id
        `${catI}-${clueI}`. */
    method PaintBody()
      modifies this`rows, this`content, this`answered
      ensures rows == Grid()
      ensures content.Keys == BoardIds()
      ensures forall id :: id in content ==> content[id] == Placeholder
      ensures answered == {}
    {
      rows := [];
      content := map[];
      answered := {};
      var clueI := 0;
      while clueI < NumClues
        modifies this`rows, this`content
        invariant 0 <= clueI <= NumClues
        invariant |rows| == clueI && forall r :: 0 <= r < clueI ==> rows[r] == Grid()[r]
        invariant content.Keys == IdsBefore(clueI * NumCategories)
        invariant forall id :: id in content ==> content[id] == Placeholder
      {
        var row := PaintRow(clueI);
        assert row == Grid()[clueI];
        rows := rows + [row];
        clueI := clueI + 1;
      }
      assert rows == Grid();
      IdsBeforeAll();
    }

    /** One body row of `fillTable`: the cells of clue `clueI` of the six
        categories, left to right, each showing "?". */
    method PaintRow(clueI: nat) returns (row: seq<string>)
      requires clueI < NumClues
      requires content.Keys == IdsBefore(clueI * NumCategories)
      requires forall id :: id in content ==> content[id] == Placeholder
      modifies this`content
      ensures row == Grid()[clueI]
      ensures content.Keys == IdsBefore(clueI * NumCategories + NumCategories)
      ensures forall id :: id in content ==> content[id] == Placeholder
    {
      row := [];
      var catI := 0;
      while catI < NumCategories
        invariant 0 <= catI <= NumCategories
        invariant |row| == catI && forall k :: 0 <= k < catI ==> row[k] == CellId(k, clueI)
        invariant content.Keys == IdsBefore(clueI * NumCategories + catI)
        invariant forall id :: id in content ==> content[id] == Placeholder
      {
        IdsBeforeStep(catI, clueI);
        var id := CellId(catI, clueI);
        row := row + [id];
        content := content[id := Placeholder];
        catI := catI + 1;
      }
    }

    /** The wipe `showLoadingView` does before every setup: header and body
        emptied, so no cell is displayed and none is marked answered. The
        game state is left alone. */
    method ShowLoadingView()
      modifies this`header, this`rows, this`content, this`answered
      ensures header == [] && rows == [] && content == map[] && answered == {}
    {
      header := [];
      rows := [];
      content := map[];
      answered := {};
    }

    /** `setupAndStart`: request the category list and take the six ids
        sampled from it, reset `categories`, request each category in turn
        and append it, then paint the table. The service's answers are
        inputs: `categoryList` is the settled list request, `fetch` the
        settled request for one category id, and `idPicks` and `cluePicks`
        the positions `_.sampleSize` drew. A rejected request ends the setup
        where it happened: nothing is reset when the list request fails, and
        the categories fetched so far stay when a category request fails. */
    method SetupAndStart(categoryList: Response<seq<CategoryRecord>>, idPicks: seq<nat>,
                         fetch: int -> Response<RawCategory>, cluePicks: seq<seq<nat>>)
      returns (outcome: SetupOutcome)
      requires categoryList.Ok? ==> ValidPicks(idPicks, |categoryList.data|, NumCategories)
      requires categoryList.Ok? ==> |cluePicks| == |idPicks|
      requires categoryList.Ok? ==> forall i :: 0 <= i < |idPicks| && fetch(categoryList.data[idPicks[i]].id).Ok? ==>
        ValidPicks(cluePicks[i], |fetch(categoryList.data[idPicks[i]].id).data.clues|, NumClues)
      modifies this
      ensures categoryList.NetworkError? ==> outcome == RequestFailed && unchanged(this)
      ensures categoryList.Ok? ==>
        var ids := GetCategoryIds(categoryList.data, idPicks);
        |categories| == FetchedBeforeFailure(ids, fetch) &&
        forall i :: 0 <= i < |categories| ==> categories[i] == GetCategory(fetch(ids[i]).data, cluePicks[i])
      ensures categoryList.Ok? ==> AllHidden(categories)
      ensures outcome == Started <==> categoryList.Ok? && |categories| == NumCategories
      ensures categoryList.Ok? ==>
        (outcome == RequestFailed <==>
         FetchedBeforeFailure(GetCategoryIds(categoryList.data, idPicks), fetch) < Min(NumCategories, |categoryList.data|))
      ensures outcome == Started ==>
        |categories| == |header| == NumCategories &&
        (forall i :: 0 <= i < NumCategories ==> header[i] == categories[i].title) &&
        rows == Grid() && content.Keys == BoardIds() &&
        (forall id :: id in content ==> content[id] == Placeholder) && answered == {}
      ensures outcome == TooFewCategories ==>
        header == [] && rows == old(rows) && content == old(content) && answered == old(answered)
      ensures outcome == RequestFailed ==>
        header == old(header) && rows == old(rows) && content == old(content) && answered == old(answered)
    {
      if categoryList.NetworkError? {
        return RequestFailed;
      }
      var ids := GetCategoryIds(categoryList.data, idPicks);
      ghost var fetched := FetchedBeforeFailure(ids, fetch);
      categories := [];
      for i := 0 to |ids|
        invariant i <= fetched
        invariant |categories| == i
        invariant forall k :: 0 <= k < i ==> categories[k] == GetCategory(fetch(ids[k]).data, cluePicks[k])
        invariant header == old(header) && rows == old(rows)
        invariant content == old(content) && answered == old(answered)
      {
        var response := fetch(ids[i]);
        if response.NetworkError? {
          // the awaited request rejects: the setup stops here
          assert i == fetched;
          return RequestFailed;
        }
        categories := categories + [GetCategory(response.data, cluePicks[i])];
      }
      assert fetched == |ids|;
      var painted := FillTable();
      if !painted {
        return TooFewCategories;
      }
      outcome := Started;
    }

    /** `handleClick` on the cell with id `id`, updating the clue and the
        cell in place as `HandleClick` describes. */
    method Click(id: string) returns (outcome: ClickOutcome)
      modifies this`categories, this`content, this`answered
      ensures ClickEffect(categories, content, answered, outcome) ==
              HandleClick(old(categories), old(content), old(answered), id)
    {
      var loc := Locate(categories, id);
      if loc.None? {
        // `categories[catI].clues[clueI]` is not a clue: the handler throws
        return NoSuchClue;
      }
      var (c, q) := loc.value;
      var clue := categories[c].clues[q];
      var msg;
      if clue.showing == Hidden {
        msg := clue.question;
        categories := WithShowing(categories, c, q, Question);
        outcome := ShowedQuestion;
      } else if clue.showing == Question {
        msg := clue.answer;
        categories := WithShowing(categories, c, q, Answer);
        answered := answered + {id};
        outcome := ShowedAnswer;
      } else {
        return AlreadyAnswered;
      }
      var cell := CellId(c, q);
      if cell in content {
        content := content[cell := Text(msg)];
      }
    }
  }

  /** The game state and display after a click, and what the click did. */
  datatype ClickEffect = ClickEffect(categories: seq<Category>, content: map<string, Content>,
                                     answered: set<string>, outcome: ClickOutcome)

  /** The click handler's state machine: the clue the id selects advances one
      reveal stage and its cell shows the newly revealed text; the answer
      also marks the clicked cell answered; an answered clue and an id that
      selects no clue change nothing. */
  function HandleClick(categories: seq<Category>, content: map<string, Content>, answered: set<string>,
                       id: string): (e: ClickEffect)
    ensures Locate(categories, id).None? ==>
      e == ClickEffect(categories, content, answered, NoSuchClue)
    ensures Locate(categories, id).Some? ==>
      var (c, q) := Locate(categories, id).value;
      var clue := categories[c].clues[q];
      var cell := CellId(c, q);
      // the clicked clue advances one stage; nothing else in the game changes
      |e.categories| == |categories| &&
      (forall i :: 0 <= i < |categories| ==>
        e.categories[i].title == categories[i].title && |e.categories[i].clues| == |categories[i].clues|) &&
      e.categories[c].clues[q] == clue.(showing := Step(clue.showing)) &&
      (forall i, j :: 0 <= i < |categories| && 0 <= j < |categories[i].clues| && (i != c || j != q) ==>
        e.categories[i].clues[j] == categories[i].clues[j]) &&
      // only the clicked clue's cell changes, and only to reveal new text
      e.content.Keys == content.Keys &&
      (forall other :: other in content && other != cell ==> e.content[other] == content[other]) &&
      (cell in content && clue.showing == Hidden ==> e.content[cell] == Text(clue.question)) &&
      (cell in content && clue.showing == Question ==> e.content[cell] == Text(clue.answer)) &&
      (clue.showing == Answer ==> e == ClickEffect(categories, content, answered, AlreadyAnswered)) &&
      // the answered marker is added to the clicked cell with the answer
      e.answered == (if clue.showing == Question then answered + {id} else answered) &&
      e.outcome == (match clue.showing
                    case Hidden => ShowedQuestion
                    case Question => ShowedAnswer
                    case Answer => AlreadyAnswered)
  {
    match Locate(categories, id)
    case None => ClickEffect(categories, content, answered, NoSuchClue)
    case Some((c, q)) =>
      var clue := categories[c].clues[q];
      if clue.showing == Answer then
        assert categories[c].clues[q := clue] == categories[c].clues;
        ClickEffect(categories, content, answered, AlreadyAnswered)
      else
        var after := WithShowing(categories, c, q, Step(clue.showing));
        var cell := CellId(c, q);
        ClickEffect(after,
                    if cell in content then content[cell := Shown(after[c].clues[q])] else content,
                    if clue.showing == Question then answered + {id} else answered,
                    if clue.showing == Hidden then ShowedQuestion else ShowedAnswer)
  }

  /** The cell of clue `q` of category `c` reflects that clue's state: its
      question or answer once revealed, the answered marker exactly when the
      answer shows, and a bare "?" for a position with no clue. */
  ghost predicate CellShows(categories: seq<Category>, content: map<string, Content>, answered: set<string>,
                            c: nat, q: nat)
  {
    var id := CellId(c, q);
    id in content &&
    if c < |categories| && q < |categories[c].clues| then
      content[id] == Shown(categories[c].clues[q]) &&
      (id in answered <==> categories[c].clues[q].showing == Answer)
    else
      content[id] == Placeholder && id !in answered
  }

  /** The table mirrors the game state: six titles in order, the 5 x 6 grid
      of cells, each showing what its clue's state says. */
  ghost predicate InStep(categories: seq<Category>, header: seq<string>, rows: seq<seq<string>>,
                         content: map<string, Content>, answered: set<string>)
  {
    |categories| >= NumCategories &&
    |header| == NumCategories &&
    (forall i :: 0 <= i < NumCategories ==> header[i] == categories[i].title) &&
    rows == Grid() &&
    content.Keys == BoardIds() &&
    answered <= BoardIds() &&
    forall c, q :: 0 <= c < NumCategories && 0 <= q < NumClues ==> CellShows(categories, content, answered, c, q)
  }

  /** A freshly painted table over a game whose clues are all hidden mirrors
      that game. */
  lemma FreshBoardInStep(categories: seq<Category>, header: seq<string>, rows: seq<seq<string>>,
                         content: map<string, Content>, answered: set<string>)
    requires |categories| >= NumCategories && AllHidden(categories)
    requires |header| == NumCategories && forall i :: 0 <= i < NumCategories ==> header[i] == categories[i].title
    requires rows == Grid() && content.Keys == BoardIds() && answered == {}
    requires forall id :: id in content ==> content[id] == Placeholder
    ensures InStep(categories, header, rows, content, answered)
  {
  }

  /** A click on a displayed cell keeps the table in step with the game:
      every other cell keeps its content and marker, and the clicked cell
      follows its clue's new state. */
  lemma ClickKeepsInStep(categories: seq<Category>, header: seq<string>, rows: seq<seq<string>>,
                         content: map<string, Content>, answered: set<string>, id: string)
    requires InStep(categories, header, rows, content, answered) && id in content
    ensures var e := HandleClick(categories, content, answered, id);
      InStep(e.categories, header, rows, e.content, e.answered)
  {
    var e := HandleClick(categories, content, answered, id);
    BoardIdAddress(id);
    forall c', q' | 0 <= c' < NumCategories && 0 <= q' < NumClues
      ensures CellShows(e.categories, e.content, e.answered, c', q')
    {
      ClickKeepsCell(categories, content, answered, id, c', q');
    }
  }

  /** One cell of `ClickKeepsInStep`. */
  lemma ClickKeepsCell(categories: seq<Category>, content: map<string, Content>, answered: set<string>,
                       id: string, c': nat, q': nat)
    requires id in content && ParseCellId(id).Some?
    requires id == CellId(ParseCellId(id).value.0, ParseCellId(id).value.1)
    requires CellShows(categories, content, answered, c', q')
    ensures var e := HandleClick(categories, content, answered, id);
      CellShows(e.categories, e.content, e.answered, c', q')
  {
    if Locate(categories, id).Some? {
      var (c, q) := Locate(categories, id).value;
      CellIdInjective(c, q, c', q');
    }
  }

  /** The game state and display after `k` clicks on the cell with id `id`. */
  function ClickRepeatedly(categories: seq<Category>, content: map<string, Content>, answered: set<string>,
                           id: string, k: nat): (seq<Category>, map<string, Content>, set<string>)
    decreases k
  {
    if k == 0 then (categories, content, answered)
    else
      var e := HandleClick(categories, content, answered, id);
      ClickRepeatedly(e.categories, e.content, e.answered, id, k - 1)
  }

  /** Any run of clicks on one cell moves its clue through the reveal order:
      after k clicks it is `Iterate(s, k)` from its state s, and the id
      still selects the same clue. */
  lemma {:induction false} RepeatedClicks(categories: seq<Category>, content: map<string, Content>,
                                          answered: set<string>, id: string, k: nat)
    requires Locate(categories, id).Some?
    ensures var (c, q) := Locate(categories, id).value;
      var after := ClickRepeatedly(categories, content, answered, id, k).0;
      Locate(after, id) == Some((c, q)) &&
      after[c].clues[q].showing == Iterate(categories[c].clues[q].showing, k)
    decreases k
  {
    if k > 0 {
      var e := HandleClick(categories, content, answered, id);
      RepeatedClicks(e.categories, e.content, e.answered, id, k - 1);
    }
  }
}
