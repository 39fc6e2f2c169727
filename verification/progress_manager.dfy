/**
 * Game unlocking and progress bookkeeping: the prerequisite chain between the
 * games, the "next game" lookup, and the immutable update applied when a game
 * reports its results.
 */
module ProgressManager {
  import opened Wrappers
  import opened JsValue

  type GameId = string

  /** An unlock condition: always unlocked, or unlocked once another game is completed. */
  datatype Condition = AlwaysUnlocked | After(prerequisite: GameId)

  /** `gameUnlockConditions`, in declaration order (which is also the game order). */
  const UnlockConditions: seq<(GameId, Condition)> := [
    ("bondTypesSorting", AlwaysUnlocked),
    ("bondFormation", After("bondTypesSorting")),
    ("electronegativityMatch", After("bondFormation")),
    ("bondPolarityQuiz", After("electronegativityMatch")),
    ("moleculeBuilder", After("bondPolarityQuiz")),
    ("conceptQuestions", After("moleculeBuilder")),
    ("atomicStructure", After("conceptQuestions")),
    ("fillInTheBlank", After("atomicStructure"))
  ]

  /** `Object.keys(gameUnlockConditions)`. */
  function GameOrder(): (r: seq<GameId>)
    ensures |r| == |UnlockConditions|
    ensures forall i :: 0 <= i < |r| ==> r[i] == UnlockConditions[i].0
  {
    seq(|UnlockConditions|, i requires 0 <= i < |UnlockConditions| => UnlockConditions[i].0)
  }

  /** `gameUnlockConditions[gameId]`; `None` for an id that has no entry. */
  function ConditionOf(id: GameId): (r: Option<Condition>)
    ensures r.Some? <==> id in GameOrder()
    ensures r.Some? ==> exists i :: 0 <= i < |UnlockConditions| && UnlockConditions[i] == (id, r.value)
  {
    ConditionIn(UnlockConditions, id)
  }

  function ConditionIn(entries: seq<(GameId, Condition)>, id: GameId): (r: Option<Condition>)
    ensures r.Some? <==> exists i :: 0 <= i < |entries| && entries[i].0 == id
    ensures r.Some? ==> exists i :: 0 <= i < |entries| && entries[i] == (id, r.value)
  {
    if |entries| == 0 then None
    else if entries[0].0 == id then Some(entries[0].1)
    else
      var r := ConditionIn(entries[1..], id);
      assert r.Some? ==> exists i :: 1 <= i < |entries| && entries[i] == (id, r.value) by {
        if r.Some? {
          var i :| 0 <= i < |entries[1..]| && entries[1..][i] == (id, r.value);
          assert entries[i + 1] == (id, r.value);
        }
      }
      assert (exists i :: 0 <= i < |entries| && entries[i].0 == id) ==> r.Some? by {
        if exists i :: 0 <= i < |entries| && entries[i].0 == id {
          var i :| 0 <= i < |entries| && entries[i].0 == id;
          assert entries[1..][i - 1].0 == id;
        }
      }
      r
  }

  /** One game's stored progress record (its `lastPlayed` timestamp is not modelled). */
  datatype GameRecord = GameRecord(completed: bool, score: int, totalItems: int, attempts: int)

  /**
   * The stored progress object: its `games` map (possibly absent) and every other
   * top-level field, which the program carries along untouched.
   */
  datatype Progress = Progress(games: Option<map<GameId, GameRecord>>, otherFields: map<string, Value>)

  /** What a finished game reports to `updateProgress`. */
  datatype GameResults = GameResults(score: int, totalItems: int, passed: bool)

  /** `progress.games?.[id]`. */
  function RecordOf(p: Progress, id: GameId): Option<GameRecord>
  {
    if p.games.Some? && id in p.games.value then Some(p.games.value[id]) else None
  }

  /** `isGameUnlocked(gameId, progress)`. */
  function IsGameUnlocked(id: GameId, p: Progress): (r: bool)
    ensures ConditionOf(id) == Some(AlwaysUnlocked) ==> r
    ensures ConditionOf(id).None? ==> !r
    ensures ConditionOf(id).Some? && ConditionOf(id).value.After? ==>
              (r <==> RecordOf(p, ConditionOf(id).value.prerequisite).Some?
                      && RecordOf(p, ConditionOf(id).value.prerequisite).value.completed)
  {
    match ConditionOf(id)
    case None => false
    case Some(AlwaysUnlocked) => true
    case Some(After(q)) =>
      match RecordOf(p, q)
      case None => false
      case Some(rec) => rec.completed
  }

  /** Position of `id` in the game order (`indexOf`). */
  function IndexIn(order: seq<GameId>, id: GameId): (r: Option<nat>)
    ensures r.Some? ==> r.value < |order| && order[r.value] == id
    ensures r.Some? ==> forall j :: 0 <= j < r.value ==> order[j] != id
    ensures r.None? <==> id !in order
  {
    if |order| == 0 then None
    else if order[0] == id then Some(0)
    else match IndexIn(order[1..], id)
      case None => None
      case Some(k) => Some(k + 1)
  }

  /** `getNextGame(currentGameId)`. */
  function GetNextGame(id: GameId): (r: Option<GameId>)
    ensures r.None? <==> id !in GameOrder() || id == GameOrder()[|GameOrder()| - 1]
    ensures r.Some? ==> exists i :: 0 <= i < |GameOrder()| - 1 && GameOrder()[i] == id && GameOrder()[i + 1] == r.value
  {
    var order := GameOrder();
    match IndexIn(order, id)
    case None => None
    case Some(i) =>
      GameOrderDistinct();
      if i == |order| - 1 then None else Some(order[i + 1])
  }

  lemma GameOrderDistinct()
    ensures forall i, j :: 0 <= i < j < |GameOrder()| ==> GameOrder()[i] != GameOrder()[j]
  {
  }

  /** In an order without repeats, `indexOf` of the element at `k` is `k`. */
  lemma IndexOfDistinct(order: seq<GameId>, k: nat)
    requires k < |order| && forall i, j :: 0 <= i < j < |order| ==> order[i] != order[j]
    ensures IndexIn(order, order[k]) == Some(k)
  {
    var r := IndexIn(order, order[k]);
    assert r.Some?;
    assert order[r.value] == order[k];
  }

  /** The table's shape: the first game is always unlocked and every later game waits for the one before it. */
  lemma ChainShape()
    ensures UnlockConditions[0].1 == AlwaysUnlocked
    ensures forall i :: 0 < i < |UnlockConditions| ==> UnlockConditions[i].1 == After(UnlockConditions[i - 1].0)
  {
  }

  /** The unlock chain agrees with the declared order: a game's prerequisite is followed by that game. */
  lemma ChainFollowsOrder(g: GameId)
    requires ConditionOf(g).Some? && ConditionOf(g).value.After?
    ensures GetNextGame(ConditionOf(g).value.prerequisite) == Some(g)
  {
    var q := ConditionOf(g).value.prerequisite;
    var i :| 0 <= i < |UnlockConditions| && UnlockConditions[i] == (g, After(q));
    ChainShape();
    var order := GameOrder();
    assert 0 < i;
    assert order[i - 1] == q && order[i] == g;
    GameOrderDistinct();
    IndexOfDistinct(order, i - 1);
  }

  /** `initializeGameProgress(gameId)`. */
  const InitialRecord := GameRecord(false, 0, 0, 0)

  /** `updateGameProgress(currentProgress, gameId, results)`. */
  function UpdateGameProgress(p: Progress, id: GameId, results: GameResults): (r: Progress)
    ensures r.otherFields == p.otherFields
    ensures r.games.Some?
    ensures RecordOf(r, id).Some?
    ensures RecordOf(r, id).value.attempts == RecordOf(p, id).GetOr(InitialRecord).attempts + 1
    ensures RecordOf(r, id).value.completed == results.passed
    ensures RecordOf(r, id).value.score == results.score
    ensures RecordOf(r, id).value.totalItems == results.totalItems
    ensures forall other :: other != id ==> RecordOf(r, other) == RecordOf(p, other)
  {
    var previous := RecordOf(p, id).GetOr(InitialRecord);
    var games := p.games.GetOr(map[]);
    Progress(Some(games[id := GameRecord(results.passed, results.score, results.totalItems, previous.attempts + 1)]),
             p.otherFields)
  }

  /** The condition looked up for the game at position `k` of the order is that entry's condition. */
  lemma ConditionAt(k: nat)
    requires k < |UnlockConditions|
    ensures ConditionOf(GameOrder()[k]) == Some(UnlockConditions[k].1)
  {
    var id := GameOrder()[k];
    var c := ConditionOf(id);
    var j :| 0 <= j < |UnlockConditions| && UnlockConditions[j] == (id, c.value);
    GameOrderDistinct();
    assert GameOrder()[j] == id;
  }

  /**
   * Reporting a game's results unlocks the game after it exactly when the run
   * passed, so a later failing run locks its successor again.
   */
  lemma SuccessorUnlockedIffPassed(p: Progress, g: GameId, results: GameResults)
    requires GetNextGame(g).Some?
    ensures IsGameUnlocked(GetNextGame(g).value, UpdateGameProgress(p, g, results)) == results.passed
  {
    var next := GetNextGame(g).value;
    var i :| 0 <= i < |GameOrder()| - 1 && GameOrder()[i] == g && GameOrder()[i + 1] == next;
    ChainShape();
    ConditionAt(i + 1);
    assert ConditionOf(next) == Some(After(g));
    var r := UpdateGameProgress(p, g, results);
    assert RecordOf(r, g).Some? && RecordOf(r, g).value.completed == results.passed;
  }

  /** The first game is unlocked whatever the progress. */
  lemma FirstGameAlwaysUnlocked(p: Progress)
    ensures IsGameUnlocked("bondTypesSorting", p)
  {
    ChainShape();
    ConditionAt(0);
  }
}
