/** The game state of the trivia board: categories of clues, each clue with a
    reveal state, and how that state is built from the trivia service's data
    and advanced by clicks. */
module GameData {
  import opened Sampling

  /** Number of categories on the board (columns). */
  const NumCategories: nat := 6
  /** Number of clues drawn per category (rows). */
  const NumClues: nat := 5

  /** A clue's `showing` field: `null`, "question" or "answer". */
  datatype Showing = Hidden | Question | Answer

  datatype Clue = Clue(question: string, answer: string, showing: Showing)

  datatype Category = Category(title: string, clues: seq<Clue>)

  /** One record of the category list the trivia service returns. */
  datatype CategoryRecord = CategoryRecord(id: int)

  /** One clue record of a category the trivia service returns. */
  datatype RawClue = RawClue(question: string, answer: string)

  /** A category as the trivia service returns it. */
  datatype RawCategory = RawCategory(title: string, clues: seq<RawClue>)

  /** The settled result of an HTTP request: the data, or a rejection. */
  datatype Response<T> = Ok(data: T) | NetworkError

  /** How far a clue has been revealed. */
  function Rank(s: Showing): nat
  {
    match s
    case Hidden => 0
    case Question => 1
    case Answer => 2
  }

  /** The reveal transition of one click: hidden to question, question to
      answer, and an answered clue ignores the click. */
  function Step(s: Showing): (t: Showing)
    ensures Rank(t) == Min(Rank(s) + 1, 2)
    ensures t == s <==> s == Answer
  {
    match s
    case Hidden => Question
    case Question => Answer
    case Answer => Answer
  }

  /** The state after `k` clicks on the same clue. */
  function Iterate(s: Showing, k: nat): Showing
    decreases k
  {
    if k == 0 then s else Iterate(Step(s), k - 1)
  }

  /** The only order in which a clue is revealed. */
  const Reveals: seq<Showing> := [Hidden, Question, Answer]

  /** Every click advances a clue by one stage until it is answered, and
      never moves it back. */
  lemma {:induction false} IterateRank(s: Showing, k: nat)
    ensures Rank(Iterate(s, k)) == Min(Rank(s) + k, 2)
    decreases k
  {
    if k > 0 {
      IterateRank(Step(s), k - 1);
    }
  }

  /** From a fresh clue, the states seen over any run of clicks are a prefix
      of hidden, question, answer, followed by answer for ever. */
  lemma RevealSequence(k: nat)
    ensures Iterate(Hidden, k) == Reveals[Min(k, 2)]
    ensures k >= 2 ==> Iterate(Hidden, k) == Answer
  {
    IterateRank(Hidden, k);
  }

  /** Monotonicity: one more click never lowers the reveal stage. */
  lemma RevealMonotone(s: Showing, k: nat)
    ensures Rank(Iterate(s, k)) <= Rank(Iterate(s, k + 1))
  {
    IterateRank(s, k);
    IterateRank(s, k + 1);
  }

  /** `getCategoryIds`: the ids of the sampled category records. */
  function GetCategoryIds(pool: seq<CategoryRecord>, picks: seq<nat>): (ids: seq<int>)
    requires ValidPicks(picks, |pool|, NumCategories)
    ensures |ids| == Min(NumCategories, |pool|)
    ensures forall i :: 0 <= i < |ids| ==> ids[i] == pool[picks[i]].id
    ensures Distinct(IdsOf(pool)) ==> Distinct(ids)
    ensures multiset(ids) <= multiset(IdsOf(pool))
  {
    var all := IdsOf(pool);
    SampleWithoutReplacement(all, picks);
    Sample(all, picks)
  }

  /** `response.data.map(cat => cat.id)`. */
  function IdsOf(pool: seq<CategoryRecord>): seq<int>
  {
    seq(|pool|, i requires 0 <= i < |pool| => pool[i].id)
  }

  /** `getCategory`: the title of the fetched category and a fresh, hidden
      clue for each of the sampled service clues, in sample order. */
  function GetCategory(data: RawCategory, picks: seq<nat>): (cat: Category)
    requires ValidPicks(picks, |data.clues|, NumClues)
    ensures cat.title == data.title
    ensures |cat.clues| == Min(NumClues, |data.clues|)
    ensures forall i :: 0 <= i < |cat.clues| ==>
      cat.clues[i].showing == Hidden &&
      cat.clues[i].question == data.clues[picks[i]].question &&
      cat.clues[i].answer == data.clues[picks[i]].answer
  {
    var drawn := Sample(data.clues, picks);
    Category(data.title, seq(|drawn|, i requires 0 <= i < |drawn| => Clue(drawn[i].question, drawn[i].answer, Hidden)))
  }

  /** No clue of any category has been revealed. */
  predicate AllHidden(cats: seq<Category>)
  {
    forall i, j :: 0 <= i < |cats| && 0 <= j < |cats[i].clues| ==> cats[i].clues[j].showing == Hidden
  }

  /** The categories with the reveal state of clue `q` of category `c`
      replaced: the in-place update `clue.showing = ...`. */
  function WithShowing(cats: seq<Category>, c: nat, q: nat, s: Showing): (r: seq<Category>)
    requires c < |cats| && q < |cats[c].clues|
    ensures |r| == |cats|
    ensures forall i :: 0 <= i < |r| ==> r[i].title == cats[i].title && |r[i].clues| == |cats[i].clues|
    ensures r[c].clues[q] == cats[c].clues[q].(showing := s)
    ensures forall i, j :: 0 <= i < |r| && 0 <= j < |r[i].clues| && (i != c || j != q) ==>
      r[i].clues[j] == cats[i].clues[j]
  {
    cats[c := cats[c].(clues := cats[c].clues[q := cats[c].clues[q].(showing := s)])]
  }

  /** How many of the per-category requests, made one after the other for
      `ids` in order, succeed before the first one is rejected. */
  function FetchedBeforeFailure(ids: seq<int>, fetch: int -> Response<RawCategory>): (k: nat)
    ensures k <= |ids|
    ensures forall i :: 0 <= i < k ==> fetch(ids[i]).Ok?
    ensures k < |ids| ==> fetch(ids[k]).NetworkError?
    decreases |ids|
  {
    if ids == [] || fetch(ids[0]).NetworkError? then 0
    else 1 + FetchedBeforeFailure(ids[1..], fetch)
  }
}
