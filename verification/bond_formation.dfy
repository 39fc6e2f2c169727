/**
 * The bond-formation game: the player selects two atoms; if a pair of the table
 * holds both, the bond forms and both atoms leave the board. The selection is
 * cleared five seconds after each check, and completion is reported two seconds
 * after the last pair forms.
 */
module BondFormation {
  import opened Wrappers
  import opened GameCommon
  import ProgressManager

  /** A pair of the table: its id and the ids of the atoms that form it. */
  datatype Pair = Pair(id: string, atoms: seq<string>)

  datatype Config = Config(atoms: seq<string>, pairs: seq<Pair>, totalPairs: nat, passingScore: nat)

  /** The game's atom ids, pairs, and scoring constants. */
  const Data := Config(
    ["sodium", "chlorine", "hydrogen1", "hydrogen2", "magnesium", "oxygen", "carbon", "oxygen2"],
    [Pair("nacl", ["sodium", "chlorine"]), Pair("h2", ["hydrogen1", "hydrogen2"]),
     Pair("mgo", ["magnesium", "oxygen"]), Pair("co2-partial", ["carbon", "oxygen2"])],
    4, 3)

  /**
   * The screen state. `pendingClears` counts the scheduled selection clears;
   * `pendingCompletions` holds the bond count each scheduled completion captured.
   */
  datatype Game = Game(available: seq<string>, selected: seq<string>, formed: seq<Pair>,
                       feedback: Option<FeedbackKind>, attempts: nat,
                       pendingClears: nat, pendingCompletions: seq<nat>, showCompletion: bool)

  /** The state on mount, from the shuffled atom list. */
  function Start(shuffled: seq<string>): (g: Game)
    ensures g.available == shuffled && g.selected == [] && g.formed == [] && g.attempts == 0
    ensures g.pendingClears == 0 && g.pendingCompletions == [] && !g.showCompletion
  {
    Game(shuffled, [], [], None, 0, 0, [], false)
  }

  predicate Distinct(xs: seq<string>) {
    forall i, j :: 0 <= i < j < |xs| ==> xs[i] != xs[j]
  }

  /** `pairs.find((p) => p.atoms.includes(a) && p.atoms.includes(b) && a !== b)`. */
  function MatchingPair(pairs: seq<Pair>, a: string, b: string): (r: Option<Pair>)
    ensures r.Some? ==> r.value in pairs && a in r.value.atoms && b in r.value.atoms && a != b
    ensures r.None? <==> a == b || forall i :: 0 <= i < |pairs| ==> !(a in pairs[i].atoms && b in pairs[i].atoms)
    ensures r.Some? ==> exists i :: 0 <= i < |pairs| && pairs[i] == r.value
                                    && forall j :: 0 <= j < i ==> !(a in pairs[j].atoms && b in pairs[j].atoms)
  {
    if |pairs| == 0 then None
    else if a in pairs[0].atoms && b in pairs[0].atoms && a != b then Some(pairs[0])
    else
      var r := MatchingPair(pairs[1..], a, b);
      if r.Some? then
        var i :| 0 <= i < |pairs[1..]| && pairs[1..][i] == r.value
                 && forall j :: 0 <= j < i ==> !(a in pairs[1..][j].atoms && b in pairs[1..][j].atoms);
        assert pairs[i + 1] == r.value;
        r
      else r
  }

  /** `available.filter((x) => !atomIds.includes(x))` for the two checked atoms. */
  function RemovePair(xs: seq<string>, a: string, b: string): (r: seq<string>)
    ensures forall x :: x in r <==> x in xs && x != a && x != b
    ensures Distinct(xs) ==> Distinct(r)
    ensures Distinct(xs) ==> |r| == |xs| - (if a in xs then 1 else 0) - (if b in xs && b != a then 1 else 0)
    ensures a !in xs && b !in xs ==> r == xs
    ensures Subsequence(r, xs)
  {
    if |xs| == 0 then []
    else
      var rest := RemovePair(xs[1..], a, b);
      if xs[0] == a || xs[0] == b then
        assert Distinct(xs) ==> xs[0] !in xs[1..];
        rest
      else
        var r := [xs[0]] + rest;
        assert Distinct(xs) ==> Distinct(r) by {
          if Distinct(xs) {
            assert xs[0] !in xs[1..];
          }
        }
        r
  }

  /**
   * `checkBond([a, b])`: the attempt counts and a selection clear is scheduled;
   * a matching pair forms, takes its atoms off the board and, if it is the last
   * one needed, schedules completion with the new bond count. The source looks
   * both atoms up in the table and dereferences them, so both must be there.
   */
  function CheckBond(cfg: Config, g: Game, a: string, b: string): (r: Game)
    requires a in cfg.atoms && b in cfg.atoms
    ensures r.attempts == g.attempts + 1 && r.pendingClears == g.pendingClears + 1
    ensures r.selected == g.selected && r.showCompletion == g.showCompletion
    ensures MatchingPair(cfg.pairs, a, b).None? ==>
              r == g.(attempts := g.attempts + 1, pendingClears := g.pendingClears + 1, feedback := Some(Error))
    ensures MatchingPair(cfg.pairs, a, b).Some? ==>
              var p := MatchingPair(cfg.pairs, a, b).value;
              && r.formed == g.formed + [p]
              && (forall x :: x in r.available <==> x in g.available && x != a && x != b)
              && r.feedback == Some(Success)
              && r.pendingCompletions ==
                   g.pendingCompletions + (if |g.formed| + 1 >= cfg.totalPairs then [|g.formed| + 1] else [])
  {
    var counted := g.(attempts := g.attempts + 1, pendingClears := g.pendingClears + 1);
    match MatchingPair(cfg.pairs, a, b)
    case None => counted.(feedback := Some(Error))
    case Some(p) =>
      var count := |g.formed| + 1;
      counted.(feedback := Some(Success),
               available := RemovePair(g.available, a, b),
               formed := g.formed + [p],
               pendingCompletions := g.pendingCompletions + (if count >= cfg.totalPairs then [count] else []))
  }

  /**
   * `handleAtomClick(atomId)`: a selected atom is deselected; otherwise, with
   * fewer than two selected, the atom joins the selection and a second atom
   * triggers the check; with two selected the click does nothing.
   */
  function HandleAtomClick(cfg: Config, g: Game, atomId: string): (r: Game)
    requires atomId in cfg.atoms && forall x :: x in g.selected ==> x in cfg.atoms
    ensures atomId in g.selected ==> r == g.(selected := r.selected) && atomId !in r.selected
                                      && forall x :: x in r.selected <==> x in g.selected && x != atomId
    ensures atomId !in g.selected && |g.selected| >= 2 ==> r == g
    ensures atomId !in g.selected && |g.selected| == 0 ==> r == g.(selected := [atomId])
    ensures atomId !in g.selected && |g.selected| == 1 ==>
              r == CheckBond(cfg, g.(selected := g.selected + [atomId]), g.selected[0], atomId)
  {
    if atomId in g.selected then g.(selected := Without(g.selected, atomId))
    else if |g.selected| < 2 then
      var selection := g.selected + [atomId];
      if |selection| == 2 then CheckBond(cfg, g.(selected := selection), selection[0], selection[1])
      else g.(selected := selection)
    else g
  }

  /** `selected.filter((id) => id !== atomId)`. */
  function Without(xs: seq<string>, x: string): (r: seq<string>)
    ensures forall y :: y in r <==> y in xs && y != x
    ensures |r| <= |xs|
    ensures x in xs ==> |r| < |xs|
  {
    if |xs| == 0 then []
    else if xs[0] == x then Without(xs[1..], x)
    else [xs[0]] + Without(xs[1..], x)
  }

  /** Clicking an atom twice on an empty selection selects and then deselects it. */
  lemma ClickTwiceDeselects(cfg: Config, g: Game, atomId: string)
    requires atomId in cfg.atoms && g.selected == []
    ensures HandleAtomClick(cfg, HandleAtomClick(cfg, g, atomId), atomId) == g
  {
    assert Without([atomId], atomId) == [];
  }

  /**
   * What happens on this screen: a click on a shown atom, the banner's dismiss
   * button, or one of the timers firing.
   */
  datatype Action = Click(atomId: string) | Dismiss | ClearTimer | CompletionTimer

  /** Every shown and selected atom is one of the table's. */
  predicate Known(cfg: Config, g: Game) {
    (forall x :: x in g.available ==> x in cfg.atoms) && (forall x :: x in g.selected ==> x in cfg.atoms)
  }

  /**
   * One action. Only available atoms are shown, and none once completion shows;
   * a selection clear empties the selection and the banner; a completion fires
   * with the bond count it captured.
   */
  function Step(cfg: Config, g: Game, a: Action): (r: (Game, Option<ProgressManager.GameResults>))
    requires Known(cfg, g)
    ensures Known(cfg, r.0)
    ensures r.1.Some? ==> a.CompletionTimer? && |g.pendingCompletions| > 0 && r.0.showCompletion
                          && r.1.value.score == g.pendingCompletions[0]
                          && r.1.value.totalItems == cfg.totalPairs
                          && (r.1.value.passed <==> r.1.value.score >= cfg.passingScore)
    ensures a.Dismiss? ==> r.0 == g.(feedback := r.0.feedback) && (!g.showCompletion ==> r.0.feedback.None?)
  {
    match a
    case Click(id) =>
      if g.showCompletion || id !in g.available then (g, None)
      else (HandleAtomClick(cfg, g, id), None)
    case Dismiss =>
      if g.showCompletion then (g, None) else (g.(feedback := None), None)
    case ClearTimer =>
      if g.pendingClears == 0 then (g, None)
      else (g.(selected := [], feedback := None, pendingClears := g.pendingClears - 1), None)
    case CompletionTimer =>
      if |g.pendingCompletions| == 0 then (g, None)
      else
        var count := g.pendingCompletions[0];
        (g.(pendingCompletions := g.pendingCompletions[1..], showCompletion := true),
         Some(Completion(count, cfg.totalPairs, cfg.passingScore)))
  }

  /** A run of actions and the completion reports it produced. */
  function Play(cfg: Config, g: Game, actions: seq<Action>): (r: (Game, seq<ProgressManager.GameResults>))
    requires Known(cfg, g)
    ensures Known(cfg, r.0)
    decreases |actions|
  {
    if |actions| == 0 then (g, [])
    else
      var (next, report) := Step(cfg, g, actions[0]);
      var (last, reports) := Play(cfg, next, actions[1..]);
      (last, (if report.Some? then [report.value] else []) + reports)
  }

  /**
   * The shape of every reachable state, for a table whose pairs use two atoms
   * each: the board holds distinct atoms; a partial selection is on the board;
   * every bond formed took two atoms off it; and completion is scheduled once,
   * exactly when every pair has formed.
   */
  predicate Reachable(cfg: Config, g: Game) {
    && Known(cfg, g)
    && Distinct(g.available)
    && |g.selected| <= 2
    && (|g.selected| < 2 ==> forall x :: x in g.selected ==> x in g.available)
    && (|g.selected| == 2 ==> (g.selected[0] in g.available <==> g.selected[1] in g.available))
    && |g.available| + 2 * |g.formed| == |cfg.atoms|
    && |g.pendingCompletions| <= 1
    && (forall i :: 0 <= i < |g.pendingCompletions| ==> g.pendingCompletions[i] == cfg.totalPairs)
    && (|g.pendingCompletions| == 1 || g.showCompletion ==> |g.formed| == cfg.totalPairs)
    && (g.showCompletion ==> |g.pendingCompletions| == 0)
  }

  lemma StartReachable(cfg: Config, shuffled: seq<string>)
    requires Distinct(shuffled) && |shuffled| == |cfg.atoms| && forall x :: x in shuffled ==> x in cfg.atoms
    ensures Reachable(cfg, Start(shuffled))
  {
  }

  /** A click on a shown atom keeps the reachable shape. */
  lemma ClickKeepsReachable(cfg: Config, g: Game, id: string)
    requires |cfg.atoms| == 2 * cfg.totalPairs
    requires Reachable(cfg, g) && !g.showCompletion && id in g.available
    ensures Reachable(cfg, HandleAtomClick(cfg, g, id))
  {
    if id !in g.selected && |g.selected| == 1 {
      var first := g.selected[0];
      if MatchingPair(cfg.pairs, first, id).Some? {
        assert first in g.available && first != id;
        var r := HandleAtomClick(cfg, g, id);
        assert |r.available| == |g.available| - 2;
        assert |g.formed| + 1 <= cfg.totalPairs;
        assert |g.pendingCompletions| == 0;
      }
    }
  }

  /** A completion timer keeps the reachable shape and reports every pair as formed. */
  lemma CompletionKeepsReachable(cfg: Config, g: Game)
    requires Reachable(cfg, g)
    ensures Reachable(cfg, Step(cfg, g, CompletionTimer).0)
    ensures Step(cfg, g, CompletionTimer).1.Some? ==>
              Step(cfg, g, CompletionTimer).1.value.score == cfg.totalPairs && !g.showCompletion
  {
    if |g.pendingCompletions| > 0 {
      assert g.pendingCompletions[0] == cfg.totalPairs;
      assert g.pendingCompletions[1..] == [];
    }
  }

  lemma StepKeepsReachable(cfg: Config, g: Game, a: Action)
    requires |cfg.atoms| == 2 * cfg.totalPairs
    requires Reachable(cfg, g)
    ensures Reachable(cfg, Step(cfg, g, a).0)
    ensures Step(cfg, g, a).1.Some? ==> Step(cfg, g, a).1.value.score == cfg.totalPairs && !g.showCompletion
  {
    match a
    case Click(id) =>
      if !g.showCompletion && id in g.available {
        ClickKeepsReachable(cfg, g, id);
      }
    case Dismiss =>
    case ClearTimer =>
    case CompletionTimer => CompletionKeepsReachable(cfg, g);
  }

  /**
   * Every run from a reachable state reports at most once (never after
   * completion), and a report always counts every pair of the table as formed.
   */
  lemma {:induction false} PlayReportsAllPairs(cfg: Config, g: Game, actions: seq<Action>)
    requires |cfg.atoms| == 2 * cfg.totalPairs
    requires Reachable(cfg, g)
    ensures var (last, reports) := Play(cfg, g, actions);
            && Reachable(cfg, last)
            && |reports| <= (if g.showCompletion then 0 else 1)
            && (forall i :: 0 <= i < |reports| ==> reports[i].score == cfg.totalPairs)
    decreases |actions|
  {
    if |actions| > 0 {
      StepKeepsReachable(cfg, g, actions[0]);
      var (next, report) := Step(cfg, g, actions[0]);
      PlayReportsAllPairs(cfg, next, actions[1..]);
    }
  }

  /** With the game's data, every completion report passes with all four bonds. */
  lemma DataAlwaysPasses(shuffled: seq<string>, actions: seq<Action>)
    requires Distinct(shuffled) && |shuffled| == |Data.atoms| && forall x :: x in shuffled ==> x in Data.atoms
    ensures var reports := Play(Data, Start(shuffled), actions).1;
            |reports| <= 1 && forall i :: 0 <= i < |reports| ==> reports[i].score == 4 && reports[i].passed
  {
    StartReachable(Data, shuffled);
    PlayReportsAllPairs(Data, Start(shuffled), actions);
    var reports := Play(Data, Start(shuffled), actions).1;
    forall i | 0 <= i < |reports| ensures reports[i].passed {
      PlayReportsPass(Data, Start(shuffled), actions, i);
    }
  }

  /** Every report of a run says whether its score reached the passing score. */
  lemma {:induction false} PlayReportsPass(cfg: Config, g: Game, actions: seq<Action>, i: nat)
    requires Known(cfg, g)
    requires i < |Play(cfg, g, actions).1|
    ensures var rep := Play(cfg, g, actions).1[i];
            rep.passed <==> rep.score >= cfg.passingScore
    decreases |actions|
  {
    var (next, report) := Step(cfg, g, actions[0]);
    var head: seq<ProgressManager.GameResults> := if report.Some? then [report.value] else [];
    if i >= |head| {
      PlayReportsPass(cfg, next, actions[1..], i - |head|);
    }
  }
}
