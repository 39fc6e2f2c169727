/**
 * The molecule builder: for each molecule in turn the player picks atoms and a
 * bond type and presses Check; the verdict is recorded, and three seconds later
 * the game moves on to the next molecule, or reports completion after the last.
 */
module MoleculeBuilder {
  import opened Wrappers
  import opened GameCommon
  import ProgressManager

  /** One entry of a molecule's `requiredAtoms`. */
  datatype Requirement = Requirement(element: string, count: nat)

  datatype Molecule = Molecule(id: string, required: seq<Requirement>, bondType: string)

  datatype Config = Config(molecules: seq<Molecule>, availableAtoms: seq<string>, totalItems: nat, passingScore: nat)

  /** The game's molecules, the atom palette, and the scoring constants. */
  const Data := Config(
    [Molecule("water", [Requirement("O", 1), Requirement("H", 2)], "covalent"),
     Molecule("methane", [Requirement("C", 1), Requirement("H", 4)], "covalent"),
     Molecule("ammonia", [Requirement("N", 1), Requirement("H", 3)], "covalent"),
     Molecule("carbonDioxide", [Requirement("C", 1), Requirement("O", 2)], "covalent"),
     Molecule("hydrogenChloride", [Requirement("H", 1), Requirement("Cl", 1)], "covalent"),
     Molecule("sodiumChloride", [Requirement("Na", 1), Requirement("Cl", 1)], "ionic")],
    ["H", "O", "C", "N", "Cl", "Na"],
    6, 5)

  /** One entry of the results list. */
  datatype MoleculeResult = MoleculeResult(moleculeId: string, isCorrect: bool)

  /** The feedback banner; the two flags say which hints the error message carries. */
  datatype Banner = Banner(kind: FeedbackKind, wrongAtoms: bool, wrongBond: bool)

  /**
   * A scheduled advance, with what its closure captured when Check was pressed:
   * the molecule index and the results list including the new verdict.
   */
  datatype Pending = Pending(index: nat, finalResults: seq<MoleculeResult>)

  /** The screen state; `pending` lists the advances not yet fired, oldest first. */
  datatype Game = Game(index: nat, selected: seq<string>, bond: Option<string>, feedback: Option<Banner>,
                       results: seq<MoleculeResult>, pending: seq<Pending>, showCompletion: bool)

  const Start := Game(0, [], None, None, [], [], false)

  /** `addAtom(atomId)`: atoms not in the palette are ignored. */
  function AddAtom(cfg: Config, selected: seq<string>, atomId: string): (r: seq<string>)
    ensures atomId in cfg.availableAtoms ==> r == selected + [atomId]
    ensures atomId !in cfg.availableAtoms ==> r == selected
  {
    if atomId in cfg.availableAtoms then selected + [atomId] else selected
  }

  /** `removeAtom(index)`: drops the atom at that position, if there is one. */
  function RemoveAtom(selected: seq<string>, index: int): (r: seq<string>)
    ensures 0 <= index < |selected| ==>
              && |r| == |selected| - 1
              && multiset(r) == multiset(selected) - multiset{selected[index]}
              && r[..index] == selected[..index]
              && (forall j :: index <= j < |r| ==> r[j] == selected[j + 1])
    ensures !(0 <= index < |selected|) ==> r == selected
  {
    if 0 <= index < |selected| then
      var r := selected[..index] + selected[index + 1..];
      assert selected == selected[..index] + [selected[index]] + selected[index + 1..];
      assert multiset(selected) == multiset(r) + multiset{selected[index]};
      r
    else selected
  }

  /** `clearSelection()`: no atoms and no bond type; the rest of the screen stays. */
  function ClearSelection(g: Game): (r: Game)
    ensures r.selected == [] && r.bond.None?
    ensures r == g.(selected := r.selected, bond := r.bond)
  {
    g.(selected := [], bond := None)
  }

  /** Removing the atom just added restores the selection. */
  lemma RemoveUndoesAdd(cfg: Config, selected: seq<string>, atomId: string)
    requires atomId in cfg.availableAtoms
    ensures RemoveAtom(AddAtom(cfg, selected, atomId), |selected|) == selected
  {
    assert (selected + [atomId])[..|selected|] == selected;
  }

  /** The `reduce` that counts the selected atoms per element, left to right. */
  function AtomCounts(selected: seq<string>): (r: map<string, nat>)
    ensures forall k :: k in r <==> k in selected
    ensures forall k :: k in r ==> r[k] == multiset(selected)[k]
    decreases |selected|
  {
    if |selected| == 0 then map[]
    else
      var init := selected[..|selected| - 1];
      var last := selected[|selected| - 1];
      assert selected == init + [last];
      var acc := AtomCounts(init);
      acc[last := (if last in acc then acc[last] else 0) + 1]
  }

  /** `requiredAtoms.every((req) => atomCounts[req.element] === req.count)`; a missing count is `undefined`. */
  predicate AtomsMatch(m: Molecule, selected: seq<string>) {
    var counts := AtomCounts(selected);
    forall i :: 0 <= i < |m.required| ==> m.required[i].element in counts && counts[m.required[i].element] == m.required[i].count
  }

  /** `requiredAtoms.reduce((sum, req) => sum + req.count, 0)`. */
  function TotalRequired(required: seq<Requirement>): nat
  {
    if |required| == 0 then 0 else required[0].count + TotalRequired(required[1..])
  }

  predicate NoExtraAtoms(m: Molecule, selected: seq<string>) {
    |selected| == TotalRequired(m.required)
  }

  /** `selectedBondType === molecule.bondType`; no choice yet never matches. */
  predicate BondMatch(m: Molecule, bond: Option<string>) {
    bond == Some(m.bondType)
  }

  /** The atoms a molecule needs, as a multiset of element ids. */
  function RequiredAtoms(required: seq<Requirement>): (r: multiset<string>)
    ensures |r| == TotalRequired(required)
    ensures forall e :: (forall i :: 0 <= i < |required| ==> required[i].element != e) ==> r[e] == 0
  {
    if |required| == 0 then multiset{}
    else RequiredAtoms(required[1..])[required[0].element := RequiredAtoms(required[1..])[required[0].element] + required[0].count]
  }

  /** A requirement list names each element once, each with a positive count. */
  predicate WellFormedMolecule(m: Molecule) {
    && (forall i, j :: 0 <= i < j < |m.required| ==> m.required[i].element != m.required[j].element)
    && (forall i :: 0 <= i < |m.required| ==> m.required[i].count > 0)
  }

  lemma {:induction false} RequiredAtomsAt(required: seq<Requirement>, i: nat)
    requires i < |required|
    requires forall a, b :: 0 <= a < b < |required| ==> required[a].element != required[b].element
    ensures RequiredAtoms(required)[required[i].element] == required[i].count
  {
    if i > 0 {
      RequiredAtomsAt(required[1..], i - 1);
    }
  }

  /** Each requirement's element is needed exactly its count. */
  lemma RequiredCounts(m: Molecule)
    requires WellFormedMolecule(m)
    ensures forall i :: 0 <= i < |m.required| ==> RequiredAtoms(m.required)[m.required[i].element] == m.required[i].count
  {
    forall i | 0 <= i < |m.required| ensures RequiredAtoms(m.required)[m.required[i].element] == m.required[i].count {
      RequiredAtomsAt(m.required, i);
    }
  }

  /** A sub-multiset as large as its super-multiset is equal to it. */
  lemma SubMultisetSameSize(a: multiset<string>, b: multiset<string>)
    requires a <= b && |a| == |b|
    ensures a == b
  {
    assert b == a + (b - a);
    assert |b - a| == 0;
  }

  /** Passing the count test means each required element is selected exactly its count. */
  lemma CountsMatchRequired(m: Molecule, selected: seq<string>, i: nat)
    requires WellFormedMolecule(m) && AtomsMatch(m, selected) && i < |m.required|
    ensures multiset(selected)[m.required[i].element] == RequiredAtoms(m.required)[m.required[i].element]
  {
    RequiredAtomsAt(m.required, i);
    assert AtomCounts(selected)[m.required[i].element] == m.required[i].count;
  }

  /** Passing the count test and the total test means selecting exactly the molecule's atoms. */
  lemma AtomsCorrectImpliesSameMultiset(m: Molecule, selected: seq<string>)
    requires WellFormedMolecule(m)
    requires AtomsMatch(m, selected) && NoExtraAtoms(m, selected)
    ensures multiset(selected) == RequiredAtoms(m.required)
  {
    var req := RequiredAtoms(m.required);
    var sel := multiset(selected);
    forall e ensures req[e] <= sel[e] {
      if i :| 0 <= i < |m.required| && m.required[i].element == e {
        CountsMatchRequired(m, selected, i);
      }
    }
    SubMultisetSameSize(req, sel);
  }

  /** Selecting exactly the molecule's atoms passes the count test and the total test. */
  lemma SameMultisetImpliesAtomsCorrect(m: Molecule, selected: seq<string>)
    requires WellFormedMolecule(m)
    requires multiset(selected) == RequiredAtoms(m.required)
    ensures AtomsMatch(m, selected) && NoExtraAtoms(m, selected)
  {
    RequiredCounts(m);
    assert |selected| == |multiset(selected)|;
    forall i | 0 <= i < |m.required|
      ensures m.required[i].element in AtomCounts(selected)
      ensures AtomCounts(selected)[m.required[i].element] == m.required[i].count
    {
      assert multiset(selected)[m.required[i].element] > 0;
    }
  }

  /**
   * For a well-formed molecule, the count test and the total test together hold
   * exactly when the selected atoms are the molecule's atoms, in any order.
   */
  lemma AtomsCorrectIffSameMultiset(m: Molecule, selected: seq<string>)
    requires WellFormedMolecule(m)
    ensures AtomsMatch(m, selected) && NoExtraAtoms(m, selected) <==> multiset(selected) == RequiredAtoms(m.required)
  {
    if AtomsMatch(m, selected) && NoExtraAtoms(m, selected) {
      AtomsCorrectImpliesSameMultiset(m, selected);
    }
    if multiset(selected) == RequiredAtoms(m.required) {
      SameMultisetImpliesAtomsCorrect(m, selected);
    }
  }

  /** The verdict Check records and the banner it shows. */
  function Judge(m: Molecule, selected: seq<string>, bond: Option<string>): (r: (bool, Banner))
    ensures r.0 <==> AtomsMatch(m, selected) && NoExtraAtoms(m, selected) && BondMatch(m, bond)
    ensures r.1.kind == (if r.0 then Success else Error)
    ensures r.1.wrongAtoms <==> !r.0 && !(AtomsMatch(m, selected) && NoExtraAtoms(m, selected))
    ensures r.1.wrongBond <==> !r.0 && !BondMatch(m, bond)
  {
    var atoms := AtomsMatch(m, selected) && NoExtraAtoms(m, selected);
    var bondOk := BondMatch(m, bond);
    var ok := atoms && bondOk;
    (ok, Banner(if ok then Success else Error, !ok && !atoms, !ok && !bondOk))
  }

  /** With a well-formed molecule, Check's verdict is: the right atoms in any order, and the right bond. */
  lemma CheckCorrectIff(m: Molecule, selected: seq<string>, bond: Option<string>)
    requires WellFormedMolecule(m)
    ensures Judge(m, selected, bond).0 <==> multiset(selected) == RequiredAtoms(m.required) && bond == Some(m.bondType)
  {
    AtomsCorrectIffSameMultiset(m, selected);
  }

  /**
   * `checkMolecule()`: record the verdict for the current molecule, show the
   * banner, and schedule the advance with what the closure sees now.
   */
  function CheckMolecule(cfg: Config, g: Game): (r: Game)
    requires g.index < |cfg.molecules|
    ensures var m := cfg.molecules[g.index];
            var verdict := Judge(m, g.selected, g.bond);
            && r.results == g.results + [MoleculeResult(m.id, verdict.0)]
            && r.feedback == Some(verdict.1)
            && r.pending == g.pending + [Pending(g.index, r.results)]
            && r.index == g.index && r.selected == g.selected && r.bond == g.bond
            && r.showCompletion == g.showCompletion
  {
    var m := cfg.molecules[g.index];
    var (ok, banner) := Judge(m, g.selected, g.bond);
    var results := g.results + [MoleculeResult(m.id, ok)];
    g.(results := results, feedback := Some(banner), pending := g.pending + [Pending(g.index, results)])
  }

  /** `results.filter((r) => r.isCorrect).length`. */
  function CorrectResults(results: seq<MoleculeResult>): (r: nat)
    ensures r <= |results|
  {
    if |results| == 0 then 0
    else (if results[0].isCorrect then 1 else 0) + CorrectResults(results[1..])
  }

  /**
   * The oldest pending advance fires: the banner clears; if its captured index
   * was not the last, the current index moves up by one and the selection is
   * cleared; otherwise it completes with the results it captured.
   */
  function FireTimer(cfg: Config, g: Game): (r: (Game, Option<ProgressManager.GameResults>))
    requires |g.pending| > 0
    ensures r.0.pending == g.pending[1..] && r.0.feedback.None? && r.0.results == g.results
    ensures g.pending[0].index < |cfg.molecules| - 1 ==>
              r.1.None? && r.0.index == g.index + 1 && r.0.selected == [] && r.0.bond.None?
              && r.0.showCompletion == g.showCompletion
    ensures !(g.pending[0].index < |cfg.molecules| - 1) ==>
              r.0.showCompletion && r.0.index == g.index && r.1.Some?
              && r.1.value.score == CorrectResults(g.pending[0].finalResults)
              && r.1.value.totalItems == cfg.totalItems
              && (r.1.value.passed <==> r.1.value.score >= cfg.passingScore)
  {
    var p := g.pending[0];
    var cleared := g.(pending := g.pending[1..], feedback := None);
    if p.index < |cfg.molecules| - 1 then
      (ClearSelection(cleared.(index := g.index + 1)), None)
    else
      (cleared.(showCompletion := true),
       Some(Completion(CorrectResults(p.finalResults), cfg.totalItems, cfg.passingScore)))
  }

  /** What the player (or a pending timer) does on this screen; `Dismiss` is the banner's close button. */
  datatype Action = Add(atomId: string) | Remove(position: int) | ClearAll | ChooseBond(bondId: string) | Check | Dismiss | Timer

  /** The Check button's `disabled` test as written: some atom and a bond type chosen. */
  predicate CheckEnabledAsWritten(g: Game) {
    |g.selected| > 0 && g.bond.Some? && g.bond.value != ""
  }

  /** The Check button, also held disabled while the advance of the last Check is pending. */
  predicate CheckEnabled(g: Game) {
    CheckEnabledAsWritten(g) && |g.pending| == 0
  }

  /**
   * One action. Once completion shows, the controls are gone and only pending
   * timers still fire. A Check past the last molecule is ignored (the source's
   * render would already have failed there); `guardPending` chooses between the
   * button as written and the corrected button.
   */
  function Apply(cfg: Config, g: Game, a: Action, guardPending: bool): (r: (Game, Option<ProgressManager.GameResults>))
    ensures r.1.Some? ==> a.Timer?
    ensures a.Dismiss? ==> r.1.None? && r.0 == g.(feedback := r.0.feedback) && (!g.showCompletion ==> r.0.feedback.None?)
    ensures !a.Timer? && g.showCompletion ==> r == (g, None)
    ensures a.Add? && !g.showCompletion ==>
              r.1.None? && r.0 == g.(selected := r.0.selected) && r.0.selected == AddAtom(cfg, g.selected, a.atomId)
    ensures a.Remove? && !g.showCompletion ==>
              r.1.None? && r.0 == g.(selected := r.0.selected) && r.0.selected == RemoveAtom(g.selected, a.position)
    ensures a.ClearAll? && !g.showCompletion ==> r == (ClearSelection(g), None)
    ensures a.ChooseBond? && !g.showCompletion ==> r.1.None? && r.0 == g.(bond := r.0.bond) && r.0.bond == Some(a.bondId)
    ensures a.Check? ==> r.1.None? && (r.0 == g || (!g.showCompletion && g.index < |cfg.molecules| && r.0 == CheckMolecule(cfg, g)))
    ensures a.Timer? ==> r == (if |g.pending| > 0 then FireTimer(cfg, g) else (g, None))
  {
    if a.Timer? then (if |g.pending| > 0 then FireTimer(cfg, g) else (g, None))
    else if g.showCompletion then (g, None)
    else match a
      case Add(atomId) => (g.(selected := AddAtom(cfg, g.selected, atomId)), None)
      case Remove(i) => (g.(selected := RemoveAtom(g.selected, i)), None)
      case ClearAll => (ClearSelection(g), None)
      case ChooseBond(b) => (g.(bond := Some(b)), None)
      case Check =>
        var enabled := if guardPending then CheckEnabled(g) else CheckEnabledAsWritten(g);
        if enabled && g.index < |cfg.molecules| then (CheckMolecule(cfg, g), None) else (g, None)
      case Dismiss => (g.(feedback := None), None)
      case Timer => (g, None)
  }

  /**
   * After the Clear button the Check button is disabled (no atoms, no bond type),
   * so a Check right after it changes nothing, with either button.
   */
  lemma ClearThenCheckIgnored(cfg: Config, g: Game, guardPending: bool)
    ensures !CheckEnabledAsWritten(ClearSelection(g)) && !CheckEnabled(ClearSelection(g))
    ensures Apply(cfg, ClearSelection(g), Check, guardPending) == (ClearSelection(g), None)
  {
  }

  /** A run of actions and the completion reports it produced. */
  function Play(cfg: Config, g: Game, actions: seq<Action>, guardPending: bool): (r: (Game, seq<ProgressManager.GameResults>))
    decreases |actions|
  {
    if |actions| == 0 then (g, [])
    else
      var (next, report) := Apply(cfg, g, actions[0], guardPending);
      var (last, reports) := Play(cfg, next, actions[1..], guardPending);
      (last, (if report.Some? then [report.value] else []) + reports)
  }

  /** Water's atoms in the order oxygen, hydrogen, hydrogen, with a covalent bond, pass Check. */
  lemma WaterSelectionPasses()
    ensures Judge(Data.molecules[0], ["O", "H", "H"], Some("covalent")).0
  {
    var m := Data.molecules[0];
    CheckCorrectIff(m, ["O", "H", "H"], Some("covalent"));
    assert RequiredAtoms(m.required) == multiset{"O", "H", "H"} by {
      assert m.required[1..] == [Requirement("H", 2)];
      assert m.required[1..][1..] == [];
    }
  }

  /** With the button as written, an enabled Check before completion is `checkMolecule`, pending advances or not. */
  lemma CheckAsWritten(cfg: Config, g: Game)
    requires !g.showCompletion && CheckEnabledAsWritten(g) && g.index < |cfg.molecules|
    ensures Apply(cfg, g, Check, false).0 == CheckMolecule(cfg, g)
  {
  }

  /** A pending advance captured before the last molecule moves the current index up by one. */
  lemma TimerAdvances(cfg: Config, g: Game, guardPending: bool)
    requires |g.pending| > 0 && g.pending[0].index < |cfg.molecules| - 1
    ensures Apply(cfg, g, Timer, guardPending).0.index == g.index + 1
    ensures Apply(cfg, g, Timer, guardPending).0.pending == g.pending[1..]
    ensures Apply(cfg, g, Timer, guardPending).0.results == g.results
  {
  }

  /**
   * With the button as written, pressing Check twice on the first molecule before
   * its advance fires records that molecule twice, and once both timers fire the
   * game is at the third molecule: the second one is never shown.
   */
  lemma DoubleCheckSkips(cfg: Config, g0: Game)
    requires 2 < |cfg.molecules|
    requires g0.index == 0 && !g0.showCompletion && CheckEnabledAsWritten(g0) && g0.pending == [] && g0.results == []
    ensures var first := MoleculeResult(cfg.molecules[0].id, Judge(cfg.molecules[0], g0.selected, g0.bond).0);
            var g1 := Apply(cfg, g0, Check, false).0;
            var g2 := Apply(cfg, g1, Check, false).0;
            var g3 := Apply(cfg, g2, Timer, false).0;
            var g4 := Apply(cfg, g3, Timer, false).0;
            g4.index == 2 && g4.results == [first, first]
  {
    var first := MoleculeResult(cfg.molecules[0].id, Judge(cfg.molecules[0], g0.selected, g0.bond).0);
    CheckAsWritten(cfg, g0);
    var g1 := Apply(cfg, g0, Check, false).0;
    assert g1.results == [first] && g1.pending == [Pending(0, [first])];
    CheckAsWritten(cfg, g1);
    var g2 := Apply(cfg, g1, Check, false).0;
    assert g2.results == [first, first] && g2.pending == [Pending(0, [first]), Pending(0, [first, first])];
    TimerAdvances(cfg, g2, false);
    var g3 := Apply(cfg, g2, Timer, false).0;
    assert g3.pending == [Pending(0, [first, first])];
    TimerAdvances(cfg, g3, false);
  }

  /**
   * With the button as written, pressing Check twice on the last molecule makes
   * both pending advances report completion: the game reports its results twice.
   */
  lemma DoubleCheckAtLastReportsTwice(cfg: Config, g0: Game)
    requires 0 < |cfg.molecules| && g0.index == |cfg.molecules| - 1
    requires !g0.showCompletion && CheckEnabledAsWritten(g0) && g0.pending == []
    ensures var g1 := Apply(cfg, g0, Check, false).0;
            var g2 := Apply(cfg, g1, Check, false).0;
            var s3 := Apply(cfg, g2, Timer, false);
            var s4 := Apply(cfg, s3.0, Timer, false);
            s3.1.Some? && s4.1.Some?
  {
    CheckAsWritten(cfg, g0);
    var g1 := Apply(cfg, g0, Check, false).0;
    CheckAsWritten(cfg, g1);
    var g2 := Apply(cfg, g1, Check, false).0;
    assert |g2.pending| == 2 && g2.pending[0].index == g0.index && g2.pending[1].index == g0.index;
    var s3 := Apply(cfg, g2, Timer, false);
    assert s3.0.pending == g2.pending[1..];
  }

  /**
   * With the game's molecules: selecting water's atoms and pressing Check twice
   * records water twice and skips methane.
   */
  lemma DoubleCheckSkipsMolecule()
    ensures var g0 := Start.(selected := ["O", "H", "H"], bond := Some("covalent"));
            var g1 := Apply(Data, g0, Check, false).0;
            var g2 := Apply(Data, g1, Check, false).0;
            var g3 := Apply(Data, g2, Timer, false).0;
            var g4 := Apply(Data, g3, Timer, false).0;
            g4.index == 2 && g4.results == [MoleculeResult("water", true), MoleculeResult("water", true)]
  {
    WaterSelectionPasses();
    DoubleCheckSkips(Data, Start.(selected := ["O", "H", "H"], bond := Some("covalent")));
  }

  /**
   * The shape of every state reachable with the corrected button: at most one
   * advance pending, capturing the current index and results; the i-th result is
   * the i-th molecule's; and completion comes with one result per molecule.
   */
  predicate Reachable(cfg: Config, g: Game) {
    && |cfg.molecules| > 0
    && |g.pending| <= 1
    && (|g.pending| == 1 ==> g.pending[0] == Pending(g.index, g.results))
    && (!g.showCompletion ==> |g.results| == g.index + |g.pending|)
    && g.index < |cfg.molecules|
    && |g.results| <= |cfg.molecules|
    && (forall i :: 0 <= i < |g.results| ==> g.results[i].moleculeId == cfg.molecules[i].id)
    && (g.showCompletion ==> |g.pending| == 0 && |g.results| == |cfg.molecules| && g.index == |cfg.molecules| - 1)
  }

  lemma ApplyKeepsReachable(cfg: Config, g: Game, a: Action)
    requires Reachable(cfg, g)
    ensures Reachable(cfg, Apply(cfg, g, a, true).0)
    ensures g.showCompletion ==> Apply(cfg, g, a, true) == (g, None)
    ensures Apply(cfg, g, a, true).1.Some? ==>
              var r := Apply(cfg, g, a, true).0;
              var report := Apply(cfg, g, a, true).1.value;
              && !g.showCompletion && r.showCompletion && |r.results| == |cfg.molecules|
              && report.score == CorrectResults(r.results) && report.totalItems == cfg.totalItems
  {
    var r := Apply(cfg, g, a, true).0;
    if a.Timer? && |g.pending| > 0 {
      assert g.pending[0] == Pending(g.index, g.results);
      if g.index < |cfg.molecules| - 1 {
        assert r.index == g.index + 1 && r.results == g.results && r.pending == [];
      } else {
        assert r.results == g.results && r.pending == [];
      }
    } else if a.Check? && !g.showCompletion && CheckEnabled(g) {
      assert r == CheckMolecule(cfg, g);
      assert r.results[g.index].moleculeId == cfg.molecules[g.index].id;
    }
  }

  /** Every report scores at most one verdict per molecule and carries the item total. */
  predicate ReportsBounded(cfg: Config, reports: seq<ProgressManager.GameResults>) {
    forall i :: 0 <= i < |reports| ==> reports[i].score <= |cfg.molecules| && reports[i].totalItems == cfg.totalItems
  }

  /**
   * With the corrected button, every run from a reachable state reports at most
   * once (never after completion), and the report scores exactly one verdict per
   * molecule, so its score never exceeds the number of molecules.
   */
  lemma {:induction false} PlayReportsOnce(cfg: Config, g: Game, actions: seq<Action>)
    requires Reachable(cfg, g)
    ensures Reachable(cfg, Play(cfg, g, actions, true).0)
    ensures |Play(cfg, g, actions, true).1| <= (if g.showCompletion then 0 else 1)
    ensures ReportsBounded(cfg, Play(cfg, g, actions, true).1)
    decreases |actions|
  {
    if |actions| > 0 {
      ApplyKeepsReachable(cfg, g, actions[0]);
      var step := Apply(cfg, g, actions[0], true);
      PlayReportsOnce(cfg, step.0, actions[1..]);
      var rest := Play(cfg, step.0, actions[1..], true);
      assert Play(cfg, g, actions, true) == (rest.0, (if step.1.Some? then [step.1.value] else []) + rest.1);
      if step.1.Some? {
        assert |rest.1| == 0;
        assert Play(cfg, g, actions, true).1 == [step.1.value];
      } else {
        assert Play(cfg, g, actions, true).1 == rest.1;
      }
    }
  }

  lemma StartReachable()
    ensures Reachable(Data, Start)
  {
  }
}
