/**
 * The bond-types sorting game: the player selects an item, then clicks the
 * "chemical" or "not-chemical" zone to place it there.
 */
module BondTypesSorting {
  import opened Wrappers
  import opened GameCommon
  import opened Sorting
  import ProgressManager

  datatype Config = Config(items: seq<Item>, zones: seq<Category>, totalItems: nat, passingScore: nat)

  /** The game's data: each item's `isChemicalBond` flag and which flag each zone accepts. */
  const Data := Config(
    [Item("ionic", true), Item("covalent", true), Item("metallic", true), Item("hydrogen", false)],
    [Category("chemical", true), Category("not-chemical", false)],
    4, 3)

  datatype Game = Game(board: Board, selectedItem: Option<string>, feedback: Option<FeedbackKind>, showCompletion: bool)

  /** The state on mount, from the shuffled item list. */
  function Start(shuffled: seq<Item>): (g: Game)
    ensures g.board.available == shuffled && TotalPlaced(g.board.placed) == 0 && g.selectedItem.None?
    ensures HasBucket(g.board.placed, "chemical") && HasBucket(g.board.placed, "not-chemical")
  {
    Game(Board(shuffled, [Bucket("chemical", []), Bucket("not-chemical", [])], map[]), None, None, false)
  }

  /** `validatePlacement(itemId, zoneId)`. */
  function ValidateItem(cfg: Config, itemId: string, zoneId: string): (r: bool)
    ensures r <==> FindItem(cfg.items, itemId).Some? && FindCategory(cfg.zones, zoneId).Some?
                   && FindItem(cfg.items, itemId).value.flag == FindCategory(cfg.zones, zoneId).value.accepts
  {
    ValidatePlacement(cfg.items, cfg.zones, itemId, zoneId)
  }

  /** `handleItemSelect(itemId)`: select the item and clear the feedback. */
  function HandleItemSelect(g: Game, itemId: string): (r: Game)
    ensures r.selectedItem == Some(itemId) && r.feedback.None?
    ensures r.board == g.board && r.showCompletion == g.showCompletion
  {
    g.(selectedItem := Some(itemId), feedback := None)
  }

  /** The `!selectedItem` test: nothing selected, or the empty id. */
  predicate HasSelection(g: Game) {
    g.selectedItem.Some? && g.selectedItem.value != ""
  }

  /** Whether a zone click would commit a placement. */
  predicate Commits(g: Game) {
    HasSelection(g) && FindItem(g.board.available, g.selectedItem.value).Some?
  }

  /**
   * `handleZoneClick(zoneId)`. As in the quiz, a zone without a bucket would make
   * the source throw, so a committing click must name a zone that has one.
   */
  function HandleZoneClick(cfg: Config, g: Game, zoneId: string): (r: Game)
    requires Commits(g) ==> HasBucket(g.board.placed, zoneId)
    ensures !HasSelection(g) ==> r == g.(feedback := Some(Info))
    ensures HasSelection(g) && !Commits(g) ==> r == g
    ensures Commits(g) ==>
              var item := FindItem(g.board.available, g.selectedItem.value).value;
              var ok := ValidateItem(cfg, item.id, zoneId);
              r.board == Place(g.board, item, zoneId, ok)
              && r.board.states[item.id] == (if ok then Correct else Incorrect)
              && r.feedback == Some(if ok then Success else Error)
              && r.selectedItem.None?
              && r.showCompletion == g.showCompletion
  {
    if !HasSelection(g) then g.(feedback := Some(Info))
    else match FindItem(g.board.available, g.selectedItem.value)
      case None => g
      case Some(item) =>
        var ok := ValidateItem(cfg, g.selectedItem.value, zoneId);
        Game(Place(g.board, item, zoneId, ok), None, Some(if ok then Success else Error), g.showCompletion)
  }

  /** A committing click moves exactly one item from the deck into a zone. */
  lemma ClickConserves(cfg: Config, g: Game, zoneId: string)
    requires Commits(g) && HasBucket(g.board.placed, zoneId)
    requires DistinctIds(g.board.available)
    ensures var r := HandleZoneClick(cfg, g, zoneId);
            |r.board.available| + TotalPlaced(r.board.placed) == |g.board.available| + TotalPlaced(g.board.placed)
            && TotalPlaced(r.board.placed) == TotalPlaced(g.board.placed) + 1
  {
    var item := FindItem(g.board.available, g.selectedItem.value).value;
    PlaceConserves(g.board, item, zoneId, ValidateItem(cfg, item.id, zoneId));
  }

  /** `getScore()`: the number of items whose verdict is correct. */
  function GetScore(g: Game): (r: nat)
    ensures r <= |g.board.states|
    ensures r == |set k | k in g.board.states && g.board.states[k] == Correct|
  {
    Score(g.board.states)
  }

  /** `checkCompletion()`: completes only once every item has been placed. */
  function CheckCompletion(cfg: Config, g: Game): (r: (Game, Option<ProgressManager.GameResults>))
    ensures r.1.Some? <==> TotalPlaced(g.board.placed) == cfg.totalItems
    ensures r.1.Some? ==> r.1.value.score == GetScore(g)
                          && (r.1.value.passed <==> GetScore(g) >= cfg.passingScore)
                          && r.0 == g.(showCompletion := true)
    ensures r.1.None? ==> r.0 == g
  {
    match Sorting.CheckCompletion(g.board, cfg.totalItems, cfg.passingScore)
    case None => (g, None)
    case Some(results) => (g.(showCompletion := true), Some(results))
  }

  /** What the player can do on this screen: pick an item, click a zone, or close the banner. */
  datatype Action = SelectItem(itemId: string) | ClickZone(zoneId: string) | Dismiss

  /** Every zone the actions click has a bucket on the board. */
  predicate ClicksKnownZones(placed: seq<Bucket>, actions: seq<Action>) {
    forall i :: 0 <= i < |actions| && actions[i].ClickZone? ==> HasBucket(placed, actions[i].zoneId)
  }

  /** One player action. */
  function Step(cfg: Config, g: Game, a: Action): (r: Game)
    requires a.ClickZone? ==> HasBucket(g.board.placed, a.zoneId)
    ensures |r.board.placed| == |g.board.placed|
    ensures forall j :: 0 <= j < |r.board.placed| ==> r.board.placed[j].categoryId == g.board.placed[j].categoryId
    ensures a.Dismiss? ==> r == g.(feedback := r.feedback) && (!g.showCompletion ==> r.feedback.None?)
  {
    match a
    case SelectItem(id) => HandleItemSelect(g, id)
    case ClickZone(z) => HandleZoneClick(cfg, g, z)
    case Dismiss => if g.showCompletion then g else g.(feedback := None)
  }

  /** After the first action, the remaining clicks still land on zones with buckets. */
  lemma StepKeepsClicksKnown(cfg: Config, g: Game, actions: seq<Action>)
    requires |actions| > 0 && ClicksKnownZones(g.board.placed, actions)
    ensures ClicksKnownZones(Step(cfg, g, actions[0]).board.placed, actions[1..])
  {
    var next := Step(cfg, g, actions[0]);
    forall i | 0 <= i < |actions[1..]| && actions[1..][i].ClickZone?
      ensures HasBucket(next.board.placed, actions[1..][i].zoneId)
    {
      SameCategories(next.board.placed, g.board.placed, actions[1..][i].zoneId);
    }
  }

  /** A sequence of player actions, from left to right. */
  function Play(cfg: Config, g: Game, actions: seq<Action>): (r: Game)
    requires ClicksKnownZones(g.board.placed, actions)
    decreases |actions|
  {
    if |actions| == 0 then g
    else
      var next := Step(cfg, g, actions[0]);
      StepKeepsClicksKnown(cfg, g, actions);
      Play(cfg, next, actions[1..])
  }

  /**
   * Any run of selections and clicks keeps the board well formed and never loses or
   * duplicates an item: available plus placed stays constant.
   */
  lemma {:induction false} PlayKeepsBoard(cfg: Config, g: Game, actions: seq<Action>)
    requires ClicksKnownZones(g.board.placed, actions) && WellFormed(g.board)
    ensures var r := Play(cfg, g, actions);
            WellFormed(r.board)
            && |r.board.available| + TotalPlaced(r.board.placed) == |g.board.available| + TotalPlaced(g.board.placed)
    decreases |actions|
  {
    if |actions| > 0 {
      var next := Step(cfg, g, actions[0]);
      if actions[0].ClickZone? && Commits(g) {
        var item := FindItem(g.board.available, g.selectedItem.value).value;
        PlacePreservesWellFormed(g.board, item, actions[0].zoneId, ValidateItem(cfg, item.id, actions[0].zoneId));
      }
      StepKeepsClicksKnown(cfg, g, actions);
      PlayKeepsBoard(cfg, next, actions[1..]);
    }
  }

  /**
   * From the mount state over a deck of distinct items, the game completes exactly
   * when the deck is empty, and the reported score never exceeds the item total.
   */
  lemma CompletesWhenDeckEmpty(shuffled: seq<Item>, actions: seq<Action>)
    requires DistinctIds(shuffled) && |shuffled| == Data.totalItems
    requires forall i :: 0 <= i < |actions| && actions[i].ClickZone? ==> actions[i].zoneId in ["chemical", "not-chemical"]
    ensures var g := Start(shuffled);
            ClicksKnownZones(g.board.placed, actions)
            && var r := Play(Data, g, actions);
               var done := CheckCompletion(Data, r).1;
               (done.Some? <==> |r.board.available| == 0)
               && (done.Some? ==> done.value.score <= Data.totalItems)
  {
    var g := Start(shuffled);
    FreshBoardWellFormed(shuffled, ["chemical", "not-chemical"]);
    assert g.board == Board(shuffled, seq(2, i requires 0 <= i < 2 => Bucket(["chemical", "not-chemical"][i], [])), map[]);
    PlayKeepsBoard(Data, g, actions);
  }
}
