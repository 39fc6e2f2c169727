/**
 * The fill-in-the-blank game: words are dragged into the blanks of a sentence;
 * once every blank holds its answer, the game moves to the next exercise after a
 * delay, and after the last one it reports completion.
 */
module FillInTheBlank {
  import opened Wrappers
  import opened GameCommon
  import ProgressManager

  /** An exercise: its id and the answer word id of each blank. */
  datatype Exercise = Exercise(id: string, answers: map<string, string>)

  datatype Config = Config(exercises: seq<Exercise>, totalItems: nat, passingScore: nat)

  /** The game's exercises and scoring constants. */
  const Data := Config(
    [Exercise("chemicalBonds", map["blank1" := "betweenAtoms", "blank2" := "together"]),
     Exercise("ionicBond", map["blank1" := "moves", "blank2" := "toAnother"]),
     Exercise("covalentBond", map["blank1" := "share", "blank2" := "stability"])],
    3, 2)

  /** One entry of the results list. */
  datatype ExerciseResult = ExerciseResult(id: string, isCorrect: bool)

  /**
   * The screen state; `placements` maps blank ids to word ids, and `advancing`
   * is the ref set while the move to the next exercise is pending.
   */
  datatype Game = Game(index: nat, placements: map<string, string>, feedback: Option<FeedbackKind>,
                       results: seq<ExerciseResult>, showCompletion: bool, advancing: bool)

  const Start := Game(0, map[], None, [], false, false)

  /** The `placements[blankId]` truthiness test: a word is placed and its id is not empty. */
  predicate Filled(p: map<string, string>, blankId: string) {
    blankId in p && p[blankId] != ""
  }

  /** No word sits in two blanks. */
  predicate Injective(p: map<string, string>) {
    forall a, b :: a in p && b in p && a != b ==> p[a] != p[b]
  }

  /** `clearBlank(blankId)`: an empty blank is left as it is; a filled one is emptied. */
  function ClearBlank(p: map<string, string>, blankId: string): (r: map<string, string>)
    ensures !Filled(p, blankId) ==> r == p
    ensures Filled(p, blankId) ==> blankId !in r && |r| == |p| - 1
    ensures forall k :: k != blankId ==> (k in r <==> k in p) && (k in r ==> r[k] == p[k])
  {
    if !Filled(p, blankId) then p else p - {blankId}
  }

  /**
   * `handleDropWord(wordId, blankId)`: the word leaves whichever blanks held it,
   * then fills the target blank, replacing what was there.
   */
  function HandleDropWord(p: map<string, string>, wordId: string, blankId: string): (r: map<string, string>)
    ensures blankId in r && r[blankId] == wordId
    ensures forall k :: k in r && k != blankId ==> k in p && r[k] == p[k] && r[k] != wordId
    ensures forall k :: k in p && k != blankId && p[k] != wordId ==> k in r
    ensures Injective(p) ==> Injective(r)
  {
    (map k | k in p && p[k] != wordId :: p[k])[blankId := wordId]
  }

  /** Dropping a new word on an empty blank and then clearing that blank restores the placements. */
  lemma ClearUndoesDrop(p: map<string, string>, wordId: string, blankId: string)
    requires wordId != "" && blankId !in p
    requires forall k :: k in p ==> p[k] != wordId
    ensures ClearBlank(HandleDropWord(p, wordId, blankId), blankId) == p
  {
  }

  /** Every blank of the exercise is filled. */
  predicate AllFilled(ex: Exercise, p: map<string, string>) {
    forall b :: b in ex.answers ==> Filled(p, b)
  }

  /** Every blank of the exercise holds its answer. */
  predicate AllCorrect(ex: Exercise, p: map<string, string>) {
    forall b :: b in ex.answers ==> b in p && p[b] == ex.answers[b]
  }

  /** No answer is the empty word id. */
  predicate NonEmptyAnswers(ex: Exercise) {
    forall b :: b in ex.answers ==> ex.answers[b] != ""
  }

  /**
   * `evaluateExercise()`, run by the effect whenever the placements or the
   * exercise change (and skipped once completion shows). While the advance is
   * pending nothing happens; with a blank unfilled only an error banner is
   * cleared; otherwise the banner reports the verdict and a correct answer
   * starts the advance.
   */
  function Evaluate(cfg: Config, g: Game): (r: Game)
    requires g.index < |cfg.exercises|
    ensures r.index == g.index && r.placements == g.placements && r.results == g.results
    ensures r.showCompletion == g.showCompletion
    ensures g.showCompletion || g.advancing ==> r == g
    ensures !g.showCompletion && !g.advancing ==>
              var ex := cfg.exercises[g.index];
              && (r.advancing <==> AllFilled(ex, g.placements) && AllCorrect(ex, g.placements))
              && (AllFilled(ex, g.placements) ==>
                    r.feedback == Some(if AllCorrect(ex, g.placements) then Success else Error))
              && (!AllFilled(ex, g.placements) ==>
                    r.feedback == if g.feedback == Some(Error) then None else g.feedback)
  {
    if g.showCompletion || g.advancing then g
    else
      var ex := cfg.exercises[g.index];
      if !AllFilled(ex, g.placements) then
        if g.feedback == Some(Error) then g.(feedback := None) else g
      else
        var ok := AllCorrect(ex, g.placements);
        g.(feedback := Some(if ok then Success else Error), advancing := ok)
  }

  /** With non-empty answers, a correct sentence is a complete one: the advance starts exactly on a correct sentence. */
  lemma AdvanceIffCorrect(cfg: Config, g: Game)
    requires g.index < |cfg.exercises| && NonEmptyAnswers(cfg.exercises[g.index])
    requires !g.showCompletion && !g.advancing
    ensures Evaluate(cfg, g).advancing <==> AllCorrect(cfg.exercises[g.index], g.placements)
  {
  }

  /** `results.filter((r) => r.isCorrect).length`. */
  function CorrectResults(results: seq<ExerciseResult>): (r: nat)
    ensures r <= |results|
    ensures (forall i :: 0 <= i < |results| ==> results[i].isCorrect) ==> r == |results|
  {
    if |results| == 0 then 0
    else (if results[0].isCorrect then 1 else 0) + CorrectResults(results[1..])
  }

  /**
   * `goToNextExercise(true)`, the delayed call: the exercise is recorded as
   * correct; before the last exercise the game moves on with empty blanks,
   * after it the game reports its results and shows completion.
   */
  function Advance(cfg: Config, g: Game): (r: (Game, Option<ProgressManager.GameResults>))
    requires g.index < |cfg.exercises|
    ensures r.0.results == g.results + [ExerciseResult(cfg.exercises[g.index].id, true)]
    ensures !r.0.advancing
    ensures g.index < |cfg.exercises| - 1 ==>
              r.1.None? && r.0.index == g.index + 1 && r.0.placements == map[] && r.0.feedback.None?
              && r.0.showCompletion == g.showCompletion
    ensures g.index == |cfg.exercises| - 1 ==>
              r.1.Some? && r.0.showCompletion && r.0.index == g.index
              && r.1.value.score == CorrectResults(r.0.results) && r.1.value.totalItems == cfg.totalItems
              && (r.1.value.passed <==> CorrectResults(r.0.results) >= cfg.passingScore)
  {
    var results := g.results + [ExerciseResult(cfg.exercises[g.index].id, true)];
    if g.index < |cfg.exercises| - 1 then
      (g.(index := g.index + 1, placements := map[], feedback := None, results := results, advancing := false), None)
    else
      var correct := CorrectResults(results);
      (g.(results := results, advancing := false, showCompletion := true),
       Some(Completion(correct, cfg.totalItems, cfg.passingScore)))
  }

  /** What the player (or the pending timer) does on this screen; `Dismiss` is the banner's close button. */
  datatype Action = DropWord(wordId: string, blankId: string) | Clear(blankId: string) | Dismiss | Timer

  /**
   * One action followed by the effect it triggers. A clear that changes nothing
   * keeps the same placements object, so the effect does not run. The timer only
   * exists while the advance is pending; once completion shows, the sentence and
   * word bank are gone and nothing reacts. Closing the banner touches neither
   * the placements nor the exercise, so the effect does not run either.
   */
  function Step(cfg: Config, g: Game, a: Action): (r: (Game, Option<ProgressManager.GameResults>))
    requires g.index < |cfg.exercises|
    ensures r.0.index < |cfg.exercises|
    ensures g.showCompletion ==> r == (g, None)
    ensures r.1.Some? ==> a.Timer? && g.advancing && g.index == |cfg.exercises| - 1
    ensures r.1.Some? ==> r.1.value.totalItems == cfg.totalItems
                          && (r.1.value.passed <==> r.1.value.score >= cfg.passingScore)
    ensures a.Dismiss? ==> r.1.None? && r.0 == g.(feedback := r.0.feedback) && (!g.showCompletion ==> r.0.feedback.None?)
  {
    if g.showCompletion then (g, None)
    else match a
      case DropWord(w, b) => (Evaluate(cfg, g.(placements := HandleDropWord(g.placements, w, b))), None)
      case Clear(b) =>
        if Filled(g.placements, b) then (Evaluate(cfg, g.(placements := ClearBlank(g.placements, b))), None)
        else (g, None)
      case Dismiss => (g.(feedback := None), None)
      case Timer =>
        if !g.advancing then (g, None)
        else
          var (next, report) := Advance(cfg, g);
          (Evaluate(cfg, next), report)
  }

  /** A run of actions and the completion reports it produced. */
  function Play(cfg: Config, g: Game, actions: seq<Action>): (r: (Game, seq<ProgressManager.GameResults>))
    requires g.index < |cfg.exercises|
    ensures r.0.index < |cfg.exercises|
    decreases |actions|
  {
    if |actions| == 0 then (g, [])
    else
      var (next, report) := Step(cfg, g, actions[0]);
      var (last, reports) := Play(cfg, next, actions[1..]);
      (last, (if report.Some? then [report.value] else []) + reports)
  }

  /**
   * The shape every reachable state has: one recorded result per finished
   * exercise, every result correct, and no word in two blanks.
   */
  predicate Reachable(cfg: Config, g: Game) {
    && g.index < |cfg.exercises|
    && (forall i :: 0 <= i < |g.results| ==> g.results[i].isCorrect)
    && (!g.showCompletion ==> |g.results| == g.index)
    && (g.showCompletion ==> |g.results| == |cfg.exercises| && g.index == |cfg.exercises| - 1)
    && Injective(g.placements)
  }

  lemma StepKeepsReachable(cfg: Config, g: Game, a: Action)
    requires Reachable(cfg, g)
    ensures Reachable(cfg, Step(cfg, g, a).0)
    ensures Step(cfg, g, a).1.Some? ==> Step(cfg, g, a).1.value.score == |cfg.exercises| && Step(cfg, g, a).0.showCompletion
  {
    if !g.showCompletion && a.Timer? && g.advancing {
      var (next, report) := Advance(cfg, g);
      assert forall i :: 0 <= i < |next.results| ==> next.results[i].isCorrect;
    }
  }

  /**
   * Every run from the mount state reports at most once, and every report
   * counts all exercises as correct: with the game's data the player always passes.
   */
  lemma {:induction false} PlayReportsOnePass(cfg: Config, g: Game, actions: seq<Action>)
    requires Reachable(cfg, g)
    ensures var (last, reports) := Play(cfg, g, actions);
            && Reachable(cfg, last)
            && |reports| <= (if g.showCompletion then 0 else 1)
            && (forall i :: 0 <= i < |reports| ==> reports[i].score == |cfg.exercises|)
            && (forall i :: 0 <= i < |reports| ==>
                  reports[i].totalItems == cfg.totalItems && (reports[i].passed <==> reports[i].score >= cfg.passingScore))
    decreases |actions|
  {
    if |actions| > 0 {
      StepKeepsReachable(cfg, g, actions[0]);
      var (next, report) := Step(cfg, g, actions[0]);
      PlayReportsOnePass(cfg, next, actions[1..]);
    }
  }

  /** The game's data always produces a passing report. */
  lemma DataAlwaysPasses(actions: seq<Action>)
    ensures var reports := Play(Data, Start, actions).1;
            |reports| <= 1 && forall i :: 0 <= i < |reports| ==> reports[i].passed && reports[i].score == Data.totalItems
  {
    PlayReportsOnePass(Data, Start, actions);
  }
}
