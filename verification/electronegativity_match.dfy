/**
 * The electronegativity match: value cards are dragged onto element cards; each
 * element takes one value, and the match is correct when the value equals the
 * element's electronegativity. Numbers are kept in tenths (4.0 is 40), which
 * represents every value in the table exactly.
 */
module ElectronegativityMatch {
  import opened Wrappers
  import opened GameCommon
  import DragAndDrop
  import ProgressManager

  /** An element card's id and its electronegativity in tenths. */
  datatype Element = Element(id: string, electronegativity: int)

  /** A value card's id and its value in tenths. */
  datatype ValueCard = ValueCard(id: string, value: int)

  datatype Config = Config(elements: seq<Element>, values: seq<ValueCard>, totalItems: nat, passingScore: nat)

  /** The game's data tables and scoring constants. */
  const Data := Config(
    [Element("fluorine", 40), Element("oxygen", 35), Element("nitrogen", 30), Element("chlorine", 30),
     Element("carbon", 25), Element("hydrogen", 21), Element("sodium", 9), Element("potassium", 8)],
    [ValueCard("val_4.0", 40), ValueCard("val_3.5", 35), ValueCard("val_3.0a", 30), ValueCard("val_3.0b", 30),
     ValueCard("val_2.5", 25), ValueCard("val_2.1", 21), ValueCard("val_0.9", 9), ValueCard("val_0.8", 8)],
    8, 6)

  /** One entry of the matched-pairs object: the value placed and whether it was right. */
  datatype Match = Match(value: ValueCard, isCorrect: bool)

  /**
   * The screen state. `pending` lists the delayed `completeGame` calls set up and
   * not yet fired, oldest first, each with the matches its closure captured.
   */
  datatype Game = Game(available: seq<ValueCard>, matched: map<string, Match>, feedback: Option<FeedbackKind>,
                       attempts: nat, pending: seq<map<string, Match>>, showCompletion: bool)

  /** The state on mount, from the shuffled value list. */
  function Start(shuffled: seq<ValueCard>): (g: Game)
    ensures g.available == shuffled && g.matched == map[] && g.attempts == 0
    ensures g.pending == [] && !g.showCompletion
  {
    Game(shuffled, map[], None, 0, [], false)
  }

  /** `values.find((v) => v.id === id)`. */
  function FindValue(values: seq<ValueCard>, id: string): (r: Option<ValueCard>)
    ensures r.Some? ==> r.value in values && r.value.id == id
    ensures r.None? <==> forall i :: 0 <= i < |values| ==> values[i].id != id
  {
    if |values| == 0 then None
    else if values[0].id == id then Some(values[0])
    else FindValue(values[1..], id)
  }

  /** `elements.find((e) => e.id === id)`. */
  function FindElement(elements: seq<Element>, id: string): (r: Option<Element>)
    ensures r.Some? ==> r.value in elements && r.value.id == id
    ensures r.None? <==> forall i :: 0 <= i < |elements| ==> elements[i].id != id
  {
    if |elements| == 0 then None
    else if elements[0].id == id then Some(elements[0])
    else FindElement(elements[1..], id)
  }

  predicate DistinctValueIds(values: seq<ValueCard>) {
    forall i, j :: 0 <= i < j < |values| ==> values[i].id != values[j].id
  }

  /** `available.filter((v) => v.id !== id)`. */
  function RemoveValue(values: seq<ValueCard>, id: string): (r: seq<ValueCard>)
    ensures forall x :: x in r <==> x in values && x.id != id
    ensures FindValue(values, id).None? ==> r == values
    ensures Subsequence(r, values)
  {
    if |values| == 0 then []
    else if values[0].id == id then RemoveValue(values[1..], id)
    else [values[0]] + RemoveValue(values[1..], id)
  }

  /** Prepending an element whose id is new keeps ids distinct. */
  lemma DistinctValueIdsCons(x: ValueCard, rest: seq<ValueCard>)
    requires DistinctValueIds(rest) && forall y :: y in rest ==> y.id != x.id
    ensures DistinctValueIds([x] + rest)
  {
    var r := [x] + rest;
    forall i, j | 0 <= i < j < |r| ensures r[i].id != r[j].id {
      assert r[j] == rest[j - 1];
      if i > 0 {
        assert r[i] == rest[i - 1];
      }
    }
  }

  /** Over distinct ids, the filter keeps ids distinct. */
  lemma {:induction false} RemoveValueDistinct(values: seq<ValueCard>, id: string)
    requires DistinctValueIds(values)
    ensures DistinctValueIds(RemoveValue(values, id))
  {
    if |values| > 0 {
      var tail := values[1..];
      assert DistinctValueIds(tail) by {
        forall i, j | 0 <= i < j < |tail| ensures tail[i].id != tail[j].id {
          assert tail[i] == values[i + 1] && tail[j] == values[j + 1];
        }
      }
      RemoveValueDistinct(tail, id);
      var rest := RemoveValue(tail, id);
      if values[0].id != id {
        assert RemoveValue(values, id) == [values[0]] + rest;
        forall y | y in rest ensures y.id != values[0].id {
          var k :| 0 <= k < |tail| && tail[k] == y;
          assert values[k + 1] == y;
        }
        DistinctValueIdsCons(values[0], rest);
      }
    }
  }

  /** Over distinct ids, the filter removes exactly the one element found. */
  lemma {:induction false} RemoveValueSize(values: seq<ValueCard>, id: string)
    requires DistinctValueIds(values) && FindValue(values, id).Some?
    ensures |RemoveValue(values, id)| == |values| - 1
  {
    var tail := values[1..];
    if values[0].id == id {
      assert FindValue(tail, id).None? by {
        forall i | 0 <= i < |tail| ensures tail[i].id != id {
          assert tail[i] == values[i + 1];
        }
      }
    } else {
      assert DistinctValueIds(tail) by {
        forall i, j | 0 <= i < j < |tail| ensures tail[i].id != tail[j].id {
          assert tail[i] == values[i + 1] && tail[j] == values[j + 1];
        }
      }
      RemoveValueSize(tail, id);
    }
  }

  /** The match recorded for a value on an element: correct exactly when the numbers are equal. */
  function Judge(v: ValueCard, e: Element): (m: Match)
    ensures m.value == v
    ensures m.isCorrect <==> v.value == e.electronegativity
  {
    Match(v, v.value == e.electronegativity)
  }

  /**
   * `handleDropValue(valueId, elementId)`. An element that already has a match
   * ignores the drop; otherwise the attempt counts, and if both ids are in the
   * tables the value leaves the list and the element records the match. The
   * value is looked up in the table, not in the available list. A match that
   * brings the count to the item total schedules a completion capturing it.
   */
  function HandleDropValue(cfg: Config, g: Game, valueId: string, elementId: string): (r: Game)
    ensures elementId in g.matched ==> r == g
    ensures elementId !in g.matched ==> r.attempts == g.attempts + 1 && r.showCompletion == g.showCompletion
    ensures (elementId !in g.matched
             && (FindValue(cfg.values, valueId).None? || FindElement(cfg.elements, elementId).None?))
            ==> r == g.(attempts := g.attempts + 1)
    ensures elementId !in g.matched && FindValue(cfg.values, valueId).Some? && FindElement(cfg.elements, elementId).Some? ==>
              var v := FindValue(cfg.values, valueId).value;
              var e := FindElement(cfg.elements, elementId).value;
              && elementId in r.matched && r.matched[elementId] == Judge(v, e)
              && (forall k :: k != elementId ==> (k in r.matched <==> k in g.matched))
              && (forall k :: k != elementId && k in g.matched ==> r.matched[k] == g.matched[k])
              && |r.matched| == |g.matched| + 1
              && (forall x :: x in r.available <==> x in g.available && x.id != valueId)
              && r.feedback == Some(if r.matched[elementId].isCorrect then Success else Error)
              && r.pending == g.pending + (if |r.matched| >= cfg.totalItems then [r.matched] else [])
  {
    if elementId in g.matched then g
    else
      var counted := g.(attempts := g.attempts + 1);
      match (FindValue(cfg.values, valueId), FindElement(cfg.elements, elementId))
      case (Some(v), Some(e)) =>
        var m := Judge(v, e);
        var matched := g.matched[elementId := m];
        counted.(available := RemoveValue(g.available, valueId),
                 matched := matched,
                 feedback := Some(if m.isCorrect then Success else Error),
                 pending := g.pending + (if |matched| >= cfg.totalItems then [matched] else []))
      case _ => counted
  }

  /**
   * The banner's close button, `setFeedback(null)`. The banner is only on the
   * matching screen, so once completion shows there is nothing to close.
   */
  function Dismiss(g: Game): (r: Game)
    ensures r == g.(feedback := r.feedback)
    ensures !g.showCompletion ==> r.feedback.None?
    ensures g.showCompletion ==> r == g
  {
    if g.showCompletion then g else g.(feedback := None)
  }

  /** `Object.values(matched).filter((m) => m.isCorrect).length`. */
  function CorrectCount(matched: map<string, Match>): (r: nat)
    ensures r <= |matched|
  {
    var correct := set k | k in matched && matched[k].isCorrect;
    SubsetSize(correct, matched.Keys);
    |correct|
  }

  /**
   * The oldest delayed call fires: `completeGame(finalMatched)` scores the
   * matches it captured, reports them and shows completion.
   */
  function Complete(cfg: Config, g: Game): (r: (Game, ProgressManager.GameResults))
    requires |g.pending| > 0
    ensures r.1.score == CorrectCount(g.pending[0]) && r.1.totalItems == cfg.totalItems
    ensures r.1.passed <==> CorrectCount(g.pending[0]) >= cfg.passingScore
    ensures r.0 == g.(pending := g.pending[1..], showCompletion := true)
  {
    (g.(pending := g.pending[1..], showCompletion := true),
     Completion(CorrectCount(g.pending[0]), cfg.totalItems, cfg.passingScore))
  }

  /** Every match sits on an element of the table and is judged against that element. */
  predicate MatchesJudged(cfg: Config, matched: map<string, Match>) {
    forall k :: k in matched ==>
      && FindElement(cfg.elements, k).Some?
      && (matched[k].isCorrect <==> matched[k].value.value == FindElement(cfg.elements, k).value.electronegativity)
  }

  /** No value still in the list has been placed on an element. */
  predicate UsedValuesGone(available: seq<ValueCard>, matched: map<string, Match>) {
    forall i, k :: 0 <= i < |available| && k in matched ==> matched[k].value.id != available[i].id
  }

  /**
   * What every state reached by drops satisfies: matches sit on known elements
   * and are judged truthfully, no available value has been used, available ids
   * are distinct, and a completion is pending only once enough elements are
   * matched, each capturing matches judged truthfully.
   */
  predicate Consistent(cfg: Config, g: Game) {
    && MatchesJudged(cfg, g.matched)
    && UsedValuesGone(g.available, g.matched)
    && DistinctValueIds(g.available)
    && (|g.pending| > 0 ==> |g.matched| >= cfg.totalItems)
    && (forall i :: 0 <= i < |g.pending| ==> MatchesJudged(cfg, g.pending[i]))
  }

  /** Recording a judged match on an element of the table keeps every match judged. */
  lemma RecordKeepsJudged(cfg: Config, matched: map<string, Match>, elementId: string, v: ValueCard)
    requires MatchesJudged(cfg, matched) && FindElement(cfg.elements, elementId).Some?
    ensures MatchesJudged(cfg, matched[elementId := Judge(v, FindElement(cfg.elements, elementId).value)])
  {
    var after := matched[elementId := Judge(v, FindElement(cfg.elements, elementId).value)];
    forall k | k in after && k != elementId
      ensures after[k] == matched[k]
    {
    }
  }

  /** Taking a value out of the list while placing it keeps used values out of the list. */
  lemma RecordKeepsUsedGone(available: seq<ValueCard>, matched: map<string, Match>, elementId: string, m: Match)
    requires UsedValuesGone(available, matched)
    ensures UsedValuesGone(RemoveValue(available, m.value.id), matched[elementId := m])
  {
    var rest := RemoveValue(available, m.value.id);
    var after := matched[elementId := m];
    forall i, k | 0 <= i < |rest| && k in after
      ensures after[k].value.id != rest[i].id
    {
      var x := rest[i];
      assert x in available && x.id != m.value.id;
      if k != elementId {
        var j :| 0 <= j < |available| && available[j] == x;
        assert after[k] == matched[k];
      }
    }
  }

  /** The mount state over distinct value ids is consistent. */
  lemma StartConsistent(cfg: Config, shuffled: seq<ValueCard>)
    requires DistinctValueIds(shuffled)
    ensures Consistent(cfg, Start(shuffled))
  {
  }

  /** Every drop, whatever its ids, keeps the state consistent. */
  lemma DropKeepsConsistent(cfg: Config, g: Game, valueId: string, elementId: string)
    requires Consistent(cfg, g)
    ensures Consistent(cfg, HandleDropValue(cfg, g, valueId, elementId))
  {
    if elementId !in g.matched && FindValue(cfg.values, valueId).Some? && FindElement(cfg.elements, elementId).Some? {
      var r := HandleDropValue(cfg, g, valueId, elementId);
      var v := FindValue(cfg.values, valueId).value;
      var m := Judge(v, FindElement(cfg.elements, elementId).value);
      assert r.matched == g.matched[elementId := m];
      assert r.available == RemoveValue(g.available, v.id);
      RecordKeepsJudged(cfg, g.matched, elementId, v);
      RecordKeepsUsedGone(g.available, g.matched, elementId, m);
      RemoveValueDistinct(g.available, valueId);
    }
  }

  /**
   * Dropping an available value on an unmatched element of the table moves that
   * value out of the list and into the matches: the two counts together stay constant.
   */
  lemma DropAvailableConserves(cfg: Config, g: Game, valueId: string, elementId: string)
    requires Consistent(cfg, g)
    requires elementId !in g.matched && FindElement(cfg.elements, elementId).Some?
    requires FindValue(g.available, valueId).Some? && FindValue(cfg.values, valueId).Some?
    ensures var r := HandleDropValue(cfg, g, valueId, elementId);
            |r.available| + |r.matched| == |g.available| + |g.matched|
  {
    RemoveValueSize(g.available, valueId);
  }

  /** The ids of a table's elements. */
  function ElementIds(elements: seq<Element>): (r: set<string>)
    ensures forall k :: k in r <==> FindElement(elements, k).Some?
  {
    set e | e in elements :: e.id
  }

  lemma {:induction false} ElementIdsBound(elements: seq<Element>)
    ensures |ElementIds(elements)| <= |elements|
  {
    if |elements| > 0 {
      ElementIdsBound(elements[1..]);
      assert ElementIds(elements) <= ElementIds(elements[1..]) + {elements[0].id};
      SubsetSize(ElementIds(elements), ElementIds(elements[1..]) + {elements[0].id});
    }
  }

  /** Truthfully judged matches sit on distinct elements, so there are no more of them than elements. */
  lemma JudgedMatchesBound(cfg: Config, matched: map<string, Match>)
    requires MatchesJudged(cfg, matched)
    ensures |matched| <= |cfg.elements|
  {
    ElementIdsBound(cfg.elements);
    assert matched.Keys <= ElementIds(cfg.elements);
    SubsetSize(matched.Keys, ElementIds(cfg.elements));
  }

  /**
   * When the item total is the table size, judged matches that reach the total
   * cover every element of the table.
   */
  lemma FullMatchesCoverTable(cfg: Config, matched: map<string, Match>)
    requires MatchesJudged(cfg, matched) && cfg.totalItems == |cfg.elements| && |matched| >= cfg.totalItems
    ensures forall i :: 0 <= i < |cfg.elements| ==> cfg.elements[i].id in matched
  {
    var ids := ElementIds(cfg.elements);
    ElementIdsBound(cfg.elements);
    assert matched.Keys <= ids;
    SubsetSize(matched.Keys, ids);
    assert |matched.Keys| == |ids|;
    assert ids - matched.Keys == {} by {
      assert |ids - matched.Keys| == |ids| - |matched.Keys|;
    }
    forall i | 0 <= i < |cfg.elements| ensures cfg.elements[i].id in matched {
      assert cfg.elements[i].id in ids;
    }
  }

  /**
   * When the item total is the table size, a pending completion means every
   * element of the table is matched, and the score it reports is at most the total.
   */
  lemma ScheduledMeansAllMatched(cfg: Config, g: Game)
    requires Consistent(cfg, g) && cfg.totalItems == |cfg.elements| && |g.pending| > 0
    ensures forall i :: 0 <= i < |cfg.elements| ==> cfg.elements[i].id in g.matched
    ensures Complete(cfg, g).1.score <= cfg.totalItems
  {
    FullMatchesCoverTable(cfg, g.matched);
    JudgedMatchesBound(cfg, g.pending[0]);
  }

  /**
   * Once a completion is pending, no later drop changes the matches or the list:
   * every element is matched, so every drop is ignored.
   */
  lemma MatchesFrozenAfterScheduling(cfg: Config, g: Game, valueId: string, elementId: string)
    requires Consistent(cfg, g) && cfg.totalItems == |cfg.elements| && |g.pending| > 0
    ensures var r := HandleDropValue(cfg, g, valueId, elementId);
            r.matched == g.matched && r.available == g.available
  {
    ScheduledMeansAllMatched(cfg, g);
    if elementId !in g.matched {
      assert FindElement(cfg.elements, elementId).None?;
    }
  }

  /**
   * Each element card registers with `() => !matched`: when the registry reflects
   * the current matches, a drag never settles on an element that already has one.
   */
  lemma MatchedElementNeverTarget(reg: DragAndDrop.Registry, g: Game, x: int, y: int, item: DragAndDrop.ItemId)
    requires forall i, v :: 0 <= i < |reg| ==> reg[i].accepts(v) == (reg[i].id !in g.matched)
    ensures var hit := DragAndDrop.FindActiveDropZone(reg, x, y, item);
            hit.Some? ==> hit.value !in g.matched
  {
  }

  /**
   * Ending a drag on this screen: pointer-up passes `handleDropValue`, pointer-cancel
   * passes no callback.
   */
  function OnDragEnd(cfg: Config, reg: DragAndDrop.Registry, s: DragAndDrop.Session, g: Game,
                     ev: DragAndDrop.PointerEvent, cancelled: bool): (r: (DragAndDrop.Session, Game))
    ensures cancelled || !DragAndDrop.Live(s) ==> r.1 == g
    ensures r.0 == DragAndDrop.DragEnd(reg, s, ev, !cancelled).session
    ensures !cancelled && DragAndDrop.Live(s) ==>
              var item := s.draggedItem.value;
              var hit := DragAndDrop.FindActiveDropZone(reg, ev.clientX, ev.clientY, item);
              r.1 == if hit.Some? && hit.value != "" then HandleDropValue(cfg, g, item, hit.value) else g
  {
    var end := DragAndDrop.DragEnd(reg, s, ev, !cancelled);
    match end.dropped
    case None => (end.session, g)
    case Some(drop) => (end.session, HandleDropValue(cfg, g, drop.item, drop.zone))
  }

  /** Whatever the pointer does, ending a drag keeps the game state consistent. */
  lemma DragEndKeepsConsistent(cfg: Config, reg: DragAndDrop.Registry, s: DragAndDrop.Session, g: Game,
                               ev: DragAndDrop.PointerEvent, cancelled: bool)
    requires Consistent(cfg, g)
    ensures Consistent(cfg, OnDragEnd(cfg, reg, s, g, ev, cancelled).1)
  {
    var end := DragAndDrop.DragEnd(reg, s, ev, !cancelled);
    if end.dropped.Some? {
      DropKeepsConsistent(cfg, g, end.dropped.value.item, end.dropped.value.zone);
    }
  }

  /**
   * What happens on this screen: a value dropped on an element (what `OnDragEnd`
   * commits), the banner's close button, or the oldest delayed completion firing.
   */
  datatype Action = Drop(valueId: string, elementId: string) | CloseBanner | Timer

  /**
   * One action. Once completion shows, the cards and the banner are gone, so a
   * drop changes nothing; a timer exists only while a completion is pending.
   */
  function Step(cfg: Config, g: Game, a: Action): (r: (Game, Option<ProgressManager.GameResults>))
    ensures r.1.Some? ==> a.Timer? && |g.pending| > 0 && r.0.showCompletion
                          && r.1.value.score == CorrectCount(g.pending[0])
                          && r.1.value.totalItems == cfg.totalItems
                          && (r.1.value.passed <==> r.1.value.score >= cfg.passingScore)
    ensures g.showCompletion ==> r.0.showCompletion
    ensures a.Drop? && g.showCompletion ==> r == (g, None)
  {
    match a
    case Drop(v, e) => (if g.showCompletion then g else HandleDropValue(cfg, g, v, e), None)
    case CloseBanner => (Dismiss(g), None)
    case Timer =>
      if |g.pending| == 0 then (g, None)
      else
        var (next, report) := Complete(cfg, g);
        (next, Some(report))
  }

  /** A run of actions and the completion reports it produced. */
  function Play(cfg: Config, g: Game, actions: seq<Action>): (r: (Game, seq<ProgressManager.GameResults>))
    ensures g.showCompletion ==> r.0.showCompletion
    decreases |actions|
  {
    if |actions| == 0 then (g, [])
    else
      var (next, report) := Step(cfg, g, actions[0]);
      var (last, reports) := Play(cfg, next, actions[1..]);
      (last, (if report.Some? then [report.value] else []) + reports)
  }

  /**
   * The shape of every state from mount: consistent; at most one completion
   * pending, capturing the current matches, and none once completion shows;
   * enough matches always mean a completion pending or shown.
   */
  predicate Reachable(cfg: Config, g: Game) {
    && Consistent(cfg, g)
    && |g.pending| <= 1
    && (|g.pending| == 1 ==> g.pending[0] == g.matched && !g.showCompletion)
    && (|g.matched| >= cfg.totalItems ==> |g.pending| == 1 || g.showCompletion)
    && (g.showCompletion ==> |g.pending| == 0 && |g.matched| >= cfg.totalItems)
  }

  /** The mount state over distinct value ids, in a game with items to match, is reachable. */
  lemma StartReachable(cfg: Config, shuffled: seq<ValueCard>)
    requires DistinctValueIds(shuffled) && cfg.totalItems > 0
    ensures Reachable(cfg, Start(shuffled))
  {
  }

  /** An element of the table without a match leaves the matches short of the table size. */
  lemma OpenElementBelowSize(cfg: Config, matched: map<string, Match>, elementId: string)
    requires MatchesJudged(cfg, matched) && FindElement(cfg.elements, elementId).Some? && elementId !in matched
    ensures |matched| < |cfg.elements|
  {
    var ids := ElementIds(cfg.elements);
    ElementIdsBound(cfg.elements);
    assert elementId in ids;
    assert matched.Keys <= ids - {elementId};
    SubsetSize(matched.Keys, ids - {elementId});
    assert |ids - {elementId}| == |ids| - 1;
  }

  /**
   * A drop before completion keeps the reachable shape: a new match is only
   * possible below the total, so at most the match reaching it schedules a completion.
   */
  lemma DropKeepsReachable(cfg: Config, g: Game, valueId: string, elementId: string)
    requires cfg.totalItems == |cfg.elements| && Reachable(cfg, g) && !g.showCompletion
    ensures Reachable(cfg, HandleDropValue(cfg, g, valueId, elementId))
  {
    DropKeepsConsistent(cfg, g, valueId, elementId);
    if elementId !in g.matched && FindValue(cfg.values, valueId).Some? && FindElement(cfg.elements, elementId).Some? {
      OpenElementBelowSize(cfg, g.matched, elementId);
      assert |g.pending| == 0;
    }
  }

  /** Every action keeps the reachable shape, and a report scores at most the total, before completion. */
  lemma StepKeepsReachable(cfg: Config, g: Game, a: Action)
    requires cfg.totalItems == |cfg.elements| && Reachable(cfg, g)
    ensures Reachable(cfg, Step(cfg, g, a).0)
    ensures Step(cfg, g, a).1.Some? ==> Step(cfg, g, a).1.value.score <= cfg.totalItems && !g.showCompletion
  {
    match a
    case Drop(v, e) =>
      if !g.showCompletion {
        DropKeepsReachable(cfg, g, v, e);
      }
    case CloseBanner =>
    case Timer =>
      if |g.pending| > 0 {
        ScheduledMeansAllMatched(cfg, g);
      }
  }

  /** Every report scores at most the item total and carries it. */
  predicate ReportsBounded(cfg: Config, reports: seq<ProgressManager.GameResults>) {
    forall i :: 0 <= i < |reports| ==> reports[i].score <= cfg.totalItems && reports[i].totalItems == cfg.totalItems
  }

  /**
   * Any run from a reachable state reports at most once (never after completion),
   * with a score of at most the total, and a report leaves completion shown.
   */
  lemma {:induction false} PlayReportsOnce(cfg: Config, g: Game, actions: seq<Action>)
    requires cfg.totalItems == |cfg.elements| && Reachable(cfg, g)
    ensures Reachable(cfg, Play(cfg, g, actions).0)
    ensures |Play(cfg, g, actions).1| <= (if g.showCompletion then 0 else 1)
    ensures ReportsBounded(cfg, Play(cfg, g, actions).1)
    ensures |Play(cfg, g, actions).1| > 0 ==> Play(cfg, g, actions).0.showCompletion
    decreases |actions|
  {
    if |actions| > 0 {
      StepKeepsReachable(cfg, g, actions[0]);
      var step := Step(cfg, g, actions[0]);
      PlayReportsOnce(cfg, step.0, actions[1..]);
      var rest := Play(cfg, step.0, actions[1..]);
      assert Play(cfg, g, actions) == (rest.0, (if step.1.Some? then [step.1.value] else []) + rest.1);
      if step.1.Some? {
        assert step.0.showCompletion && !g.showCompletion;
        assert |rest.1| == 0;
        assert Play(cfg, g, actions).1 == [step.1.value];
      } else {
        assert Play(cfg, g, actions).1 == rest.1;
      }
    }
  }

  /**
   * With the game's table, any run from mount reports at most once, scoring at
   * most 8 of 8, and only after all eight elements are matched.
   */
  lemma DataReportsAtMostOnce(shuffled: seq<ValueCard>, actions: seq<Action>)
    requires DistinctValueIds(shuffled)
    ensures var (last, reports) := Play(Data, Start(shuffled), actions);
            && |reports| <= 1
            && (forall i :: 0 <= i < |reports| ==> reports[i].score <= 8 && reports[i].totalItems == 8)
            && (|reports| > 0 ==> forall i :: 0 <= i < |Data.elements| ==> Data.elements[i].id in last.matched)
  {
    StartReachable(Data, shuffled);
    PlayReportsOnce(Data, Start(shuffled), actions);
    var run := Play(Data, Start(shuffled), actions);
    if |run.1| > 0 {
      FullMatchesCoverTable(Data, run.0.matched);
    }
  }
}
