/**
 * The bond-polarity quiz: bonds are dragged into the "polar" or "nonpolar"
 * category; each drop records whether the bond's polarity matches the category.
 */
module BondPolarityQuiz {
  import opened Wrappers
  import opened GameCommon
  import opened Sorting
  import DragAndDrop
  import ProgressManager

  /** The bond and category tables with the quiz's scoring constants. */
  datatype Config = Config(bonds: seq<Item>, categories: seq<Category>, totalItems: nat, passingScore: nat)

  /** The quiz's data: each bond's `isPolar` flag, and which flag each category accepts. */
  const Data := Config(
    [Item("h2", false), Item("hcl", true), Item("nacl", true), Item("o2", false), Item("h2o", true),
     Item("co2_co", true), Item("n2", false), Item("ch", false), Item("nh", true), Item("cl2", false)],
    [Category("polar", true), Category("nonpolar", false)],
    10, 8)

  datatype Game = Game(board: Board, feedback: Option<FeedbackKind>, showCompletion: bool)

  /** The state on mount, from the shuffled bond list. */
  function Start(shuffled: seq<Item>): (g: Game)
    ensures g.board.available == shuffled && TotalPlaced(g.board.placed) == 0
    ensures HasBucket(g.board.placed, "polar") && HasBucket(g.board.placed, "nonpolar")
  {
    Game(Board(shuffled, [Bucket("polar", []), Bucket("nonpolar", [])], map[]), None, false)
  }

  /** `validatePlacement(bondId, categoryId)`. */
  function ValidateBond(cfg: Config, bondId: string, categoryId: string): (r: bool)
    ensures r <==> FindItem(cfg.bonds, bondId).Some? && FindCategory(cfg.categories, categoryId).Some?
                   && FindItem(cfg.bonds, bondId).value.flag == FindCategory(cfg.categories, categoryId).value.accepts
  {
    ValidatePlacement(cfg.bonds, cfg.categories, bondId, categoryId)
  }

  /**
   * `handleDropBond(bondId, categoryId)`. The source spreads `prev[categoryId]`,
   * which throws for a category without a bucket, so such a drop is excluded.
   */
  function HandleDropBond(cfg: Config, g: Game, bondId: string, categoryId: string): (r: Game)
    requires FindItem(g.board.available, bondId).None? || HasBucket(g.board.placed, categoryId)
    ensures FindItem(g.board.available, bondId).None? ==> r == g
    ensures FindItem(g.board.available, bondId).Some? ==>
              var bond := FindItem(g.board.available, bondId).value;
              var ok := ValidateBond(cfg, bondId, categoryId);
              r.board == Place(g.board, bond, categoryId, ok)
              && r.board.states[bondId] == (if ok then Correct else Incorrect)
              && r.feedback == Some(if ok then Success else Error)
              && r.showCompletion == g.showCompletion
  {
    match FindItem(g.board.available, bondId)
    case None => g
    case Some(bond) =>
      var ok := ValidateBond(cfg, bondId, categoryId);
      g.(board := Place(g.board, bond, categoryId, ok), feedback := Some(if ok then Success else Error))
  }

  /**
   * The banner's close button, `setFeedback(null)`. The banner is only on the
   * board screen, so once completion shows there is nothing to close.
   */
  function Dismiss(g: Game): (r: Game)
    ensures r == g.(feedback := r.feedback)
    ensures !g.showCompletion ==> r.feedback.None?
    ensures g.showCompletion ==> r == g
  {
    if g.showCompletion then g else g.(feedback := None)
  }

  /** A bond dropped twice is placed once: the second drop finds it no longer available. */
  lemma DropTwiceIsDropOnce(cfg: Config, g: Game, bondId: string, c1: string, c2: string)
    requires HasBucket(g.board.placed, c1)
    ensures var once := HandleDropBond(cfg, g, bondId, c1);
            HandleDropBond(cfg, once, bondId, c2) == once
  {
    var once := HandleDropBond(cfg, g, bondId, c1);
    assert FindItem(once.board.available, bondId).None?;
  }

  /** Each drop of an available bond moves exactly one bond from the list into a bucket. */
  lemma DropConserves(cfg: Config, g: Game, bondId: string, categoryId: string)
    requires HasBucket(g.board.placed, categoryId)
    requires DistinctIds(g.board.available)
    ensures var r := HandleDropBond(cfg, g, bondId, categoryId);
            |r.board.available| + TotalPlaced(r.board.placed) == |g.board.available| + TotalPlaced(g.board.placed)
  {
    match FindItem(g.board.available, bondId)
    case None =>
    case Some(bond) => PlaceConserves(g.board, bond, categoryId, ValidateBond(cfg, bondId, categoryId));
  }

  /** The completion check run once every bond is placed. */
  function CheckCompletion(cfg: Config, g: Game): (r: (Game, Option<ProgressManager.GameResults>))
    ensures r.1.Some? <==> TotalPlaced(g.board.placed) == cfg.totalItems
    ensures r.1.Some? ==> r.1.value.score == Score(g.board.states)
                          && (r.1.value.passed <==> Score(g.board.states) >= cfg.passingScore)
                          && r.0 == g.(showCompletion := true)
    ensures r.1.None? ==> r.0 == g
  {
    match Sorting.CheckCompletion(g.board, cfg.totalItems, cfg.passingScore)
    case None => (g, None)
    case Some(results) => (g.(showCompletion := true), Some(results))
  }

  /** Every category zone's acceptance predicate (`() => true`). */
  function CategoryAccepts(item: DragAndDrop.ItemId): bool { true }

  /**
   * Ending a drag on this screen: pointer-up passes `handleDropBond`, pointer-cancel
   * passes no callback. The registry holds the category zones.
   */
  function OnDragEnd(cfg: Config, reg: DragAndDrop.Registry, s: DragAndDrop.Session, g: Game,
                     ev: DragAndDrop.PointerEvent, cancelled: bool): (r: (DragAndDrop.Session, Game))
    requires forall i :: 0 <= i < |reg| ==> HasBucket(g.board.placed, reg[i].id)
    ensures cancelled || !DragAndDrop.Live(s) ==> r.1 == g
    ensures r.0 == DragAndDrop.DragEnd(reg, s, ev, !cancelled).session
    ensures !cancelled && DragAndDrop.Live(s) ==>
              var item := s.draggedItem.value;
              var hit := DragAndDrop.FindActiveDropZone(reg, ev.clientX, ev.clientY, item);
              && (hit.Some? ==> HasBucket(g.board.placed, hit.value))
              && r.1 == if hit.Some? && hit.value != "" then HandleDropBond(cfg, g, item, hit.value) else g
  {
    var end := DragAndDrop.DragEnd(reg, s, ev, !cancelled);
    match end.dropped
    case None => (end.session, g)
    case Some(drop) =>
      assert exists i :: 0 <= i < |reg| && reg[i].id == drop.zone;
      (end.session, HandleDropBond(cfg, g, drop.item, drop.zone))
  }

  /**
   * Because every category accepts every bond, releasing a live drag inside any
   * category's rectangle commits the bond to the first such category.
   */
  lemma ReleaseInsideCategoryCommits(cfg: Config, reg: DragAndDrop.Registry, s: DragAndDrop.Session, g: Game,
                                     ev: DragAndDrop.PointerEvent, k: nat)
    requires forall i :: 0 <= i < |reg| ==> HasBucket(g.board.placed, reg[i].id) && reg[i].id != ""
    requires forall i :: 0 <= i < |reg| ==> reg[i].accepts == CategoryAccepts
    requires DragAndDrop.Live(s)
    requires k < |reg| && DragAndDrop.Contains(reg[k].rect, ev.clientX, ev.clientY)
    ensures var hit := DragAndDrop.FindActiveDropZone(reg, ev.clientX, ev.clientY, s.draggedItem.value);
            hit.Some?
            && OnDragEnd(cfg, reg, s, g, ev, false).1 == HandleDropBond(cfg, g, s.draggedItem.value, hit.value)
  {
    assert DragAndDrop.Qualifies(reg[k], ev.clientX, ev.clientY, s.draggedItem.value);
  }

  /** Every drop in the run names a category that has a bucket. */
  predicate DropsOnKnownCategories(placed: seq<Bucket>, drops: seq<(string, string)>) {
    forall i :: 0 <= i < |drops| ==> HasBucket(placed, drops[i].1)
  }

  /** A run of `(bondId, categoryId)` drops, from left to right. */
  function DropAll(cfg: Config, g: Game, drops: seq<(string, string)>): (r: Game)
    requires DropsOnKnownCategories(g.board.placed, drops)
    ensures |r.board.placed| == |g.board.placed|
    ensures forall j :: 0 <= j < |r.board.placed| ==> r.board.placed[j].categoryId == g.board.placed[j].categoryId
    decreases |drops|
  {
    if |drops| == 0 then g
    else
      var next := HandleDropBond(cfg, g, drops[0].0, drops[0].1);
      assert DropsOnKnownCategories(next.board.placed, drops[1..]) by {
        forall i | 0 <= i < |drops[1..]| ensures HasBucket(next.board.placed, drops[1..][i].1) {
          SameCategories(next.board.placed, g.board.placed, drops[1..][i].1);
        }
      }
      DropAll(cfg, next, drops[1..])
  }

  /**
   * Any run of drops keeps the board well formed and conserves bonds: available
   * plus placed stays constant.
   */
  lemma {:induction false} DropAllKeepsBoard(cfg: Config, g: Game, drops: seq<(string, string)>)
    requires DropsOnKnownCategories(g.board.placed, drops) && WellFormed(g.board)
    ensures var r := DropAll(cfg, g, drops);
            WellFormed(r.board)
            && |r.board.available| + TotalPlaced(r.board.placed) == |g.board.available| + TotalPlaced(g.board.placed)
    decreases |drops|
  {
    if |drops| > 0 {
      var next := HandleDropBond(cfg, g, drops[0].0, drops[0].1);
      if FindItem(g.board.available, drops[0].0).Some? {
        var bond := FindItem(g.board.available, drops[0].0).value;
        PlacePreservesWellFormed(g.board, bond, drops[0].1, ValidateBond(cfg, drops[0].0, drops[0].1));
      }
      assert DropsOnKnownCategories(next.board.placed, drops[1..]) by {
        forall i | 0 <= i < |drops[1..]| ensures HasBucket(next.board.placed, drops[1..][i].1) {
          SameCategories(next.board.placed, g.board.placed, drops[1..][i].1);
        }
      }
      DropAllKeepsBoard(cfg, next, drops[1..]);
    }
  }

  /**
   * From the mount state over a deck of distinct bonds, the quiz completes exactly
   * when every bond has left the list, and the score never exceeds the bond total.
   */
  lemma CompletesWhenListEmpty(shuffled: seq<Item>, drops: seq<(string, string)>)
    requires DistinctIds(shuffled) && |shuffled| == Data.totalItems
    requires forall i :: 0 <= i < |drops| ==> drops[i].1 in ["polar", "nonpolar"]
    ensures var g := Start(shuffled);
            DropsOnKnownCategories(g.board.placed, drops)
            && var r := DropAll(Data, g, drops);
               var done := CheckCompletion(Data, r).1;
               (done.Some? <==> |r.board.available| == 0)
               && (done.Some? ==> done.value.score <= Data.totalItems)
  {
    var g := Start(shuffled);
    FreshBoardWellFormed(shuffled, ["polar", "nonpolar"]);
    assert g.board == Board(shuffled, seq(2, i requires 0 <= i < 2 => Bucket(["polar", "nonpolar"][i], [])), map[]);
    DropAllKeepsBoard(Data, g, drops);
  }
}
