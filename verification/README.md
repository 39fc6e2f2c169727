# Chemistry bond games: a Dafny model

This project models the logic behind a suite of browser games about chemical
bonds. It is written in Dafny and proves properties of that model. It covers:

- the pointer drag-and-drop hook the games share:
  - a registry of drop zones;
  - the hit test over that registry;
  - the drag session lifecycle;
- the unlock chain between the games and the progress record a finished game
  updates;
- the application settings normalisation and its storage round trip;
- the language context, including the dotted-key translation lookup;
- the rules of six games:
  - bond-types sorting and the bond-polarity quiz, which share one
    "sort into categories" board;
  - electronegativity match;
  - fill in the blank;
  - molecule builder;
  - bond formation.

Each game is a pure state machine, built from:

- the state on mount;
- one function per handler;
- the delayed `setTimeout` callbacks, as explicit timer actions;
- the completion report the game sends to `updateProgress`.

Runs of actions are folded by `Play`/`DropAll`. The lemmas relate these runs to
invariants, conservation laws and pass/fail guarantees.

Modelling conventions:

- A JavaScript value that may be `null` or `undefined` is an `Option`.
- Truthiness is explicit: an empty id counts as "no item".
- Electronegativity values are integers in tenths. The table only uses one
  decimal place, so this is exact.
- Where the source would throw a `TypeError`, the model does one of two things:
  - For settings normalisation, the error is a result (`AppSettings.Outcome`).
  - For the spread of a missing bucket and the dereference of an atom that is
    not in the table, the model puts the source's implicit demand in a
    `requires`.
- Shuffling is not modelled. Every `Start` takes the already shuffled list as a
  parameter.

## Model

| member | source | states |
|---|---|---|
| DragAndDrop.SetZone | src/hooks/useDragAndDrop.js:19 | `Map.set` on the registry: the id now maps to the new zone; an existing entry keeps its position, a new one is appended; every other id's lookup is unchanged |
| DragAndDrop.ReplaceInPlace | src/hooks/useDragAndDrop.js:19 | overwriting an existing entry keeps ids unique, and every other id's position and the rest of the registry stay as they were |
| DragAndDrop.AppendNew | src/hooks/useDragAndDrop.js:19 | appending a new id keeps ids unique and puts it last; every other lookup and the rest of the registry stay as they were |
| DragAndDrop.DeleteZone | src/hooks/useDragAndDrop.js:21 | `Map.delete`: the id is gone, every other lookup is unchanged, and the size drops by one exactly when the id was present |
| DragAndDrop.RegisterDropZone | src/hooks/useDragAndDrop.js:17-23 | a present element registers or replaces the zone under its id; a missing element unregisters it; other ids are untouched |
| DragAndDrop.FirstHit | src/hooks/useDragAndDrop.js:27-41 | the scan returns the first zone in registry order whose rectangle contains the point (edges inclusive) and which accepts the item; none means no zone qualifies |
| DragAndDrop.FindActiveDropZone | src/hooks/useDragAndDrop.js:26-42 | the id returned names a registered zone that contains the point and accepts the item, with no earlier zone qualifying; `null` exactly when no zone qualifies |
| DragAndDrop.UnregisteredZoneNeverHit | src/hooks/useDragAndDrop.js:17-42 | after a zone's element is unregistered, no hit test returns that zone |
| DragAndDrop.DragStart | src/hooks/useDragAndDrop.js:44-58 | a drag starts with the item and the dragging flag set; a touch pointer locks page scrolling |
| DragAndDrop.DragMove | src/hooks/useDragAndDrop.js:60-71 | without a live drag (dragging and a truthy item) nothing changes; otherwise only the highlighted zone changes, and it is one that accepts the item |
| DragAndDrop.DragEnd | src/hooks/useDragAndDrop.js:73-101 | without a live drag nothing happens; otherwise the session is reset and a touch releases the scroll lock; a drop is emitted exactly when a callback was passed and the final hit test found a truthy zone id, and it carries the dragged item and exactly the zone that final hit test returned |
| DragAndDrop.SecondEndIsNoOp | src/hooks/useDragAndDrop.js:75 | a second end right after an end does nothing, so one drag produces at most one drop |
| DragAndDrop.MovesKeepDrag | src/hooks/useDragAndDrop.js:60-71 | any number of moves leaves the dragged item, the dragging flag and the scroll lock untouched |
| DragAndDrop.FullDragReturnsToIdle | src/hooks/useDragAndDrop.js:44-101 | down, any moves, then up or cancel returns the session to exactly the idle state, and drops exactly when the final hit found a zone and a callback was passed; the drop carries the pressed item and the zone found under the release point |
| DragAndDrop.Step | src/hooks/useDragAndDrop.js:17-101 | only pointer-up can drop, and its drop is the one `DragEnd` emits; a drop comes from a live session, names the zone the hit test finds under the release point, which is registered and accepts the item, and ends the drag |
| DragAndDrop.DropsBoundedByDowns | src/hooks/useDragAndDrop.js:44-101 | over any event run, drops never outnumber pointer-downs (plus a drag already live at the start) |
| DragAndDrop.NoUpNoDrop | src/hooks/useDragAndDrop.js:73-93 | a run without pointer-up (cancels pass `null`) never drops |
| ProgressManager.GameOrder | src/utils/progressManager.js:45 | the game order is the key order of the unlock table |
| ProgressManager.ConditionOf | src/utils/progressManager.js:6-15 | a game has a condition exactly when it is in the table, and the condition is its table entry |
| ProgressManager.IsGameUnlocked | src/utils/progressManager.js:23-37 | an always-unlocked game is unlocked; an unknown game is locked; any other game is unlocked exactly when its prerequisite's record exists and is completed |
| ProgressManager.IndexIn | src/utils/progressManager.js:46 | `indexOf`: the first position holding the id, or none when the id is absent |
| ProgressManager.IndexOfDistinct | src/utils/progressManager.js:46 | in an order without repeats, `indexOf` of the k-th game is k |
| ProgressManager.GetNextGame | src/utils/progressManager.js:44-53 | `null` exactly for an unknown id or the last game; otherwise the game right after it in the order |
| ProgressManager.GameOrderDistinct | src/utils/progressManager.js:6-15 | the game order has no repeated id |
| ProgressManager.ChainShape | src/utils/progressManager.js:6-15 | the table's first entry is always unlocked, and every later entry is unlocked by the entry before it |
| ProgressManager.ConditionAt | src/utils/progressManager.js:6-15 | the condition looked up for the k-th game of the order is the k-th table entry |
| ProgressManager.ChainFollowsOrder | src/utils/progressManager.js:6-15 | each game's prerequisite is the game just before it, so `getNextGame(prerequisite)` is that game |
| ProgressManager.UpdateGameProgress | src/utils/progressManager.js:77-94 | the game's record is created or overwritten with the results' pass flag, score and total, and attempts is one more than before; other games and other top-level fields are unchanged |
| ProgressManager.SuccessorUnlockedIffPassed | src/utils/progressManager.js:23-94 | after a report, the next game is unlocked exactly when the report passed (a later failure locks it again) |
| ProgressManager.FirstGameAlwaysUnlocked | src/utils/progressManager.js:7 | the first game is unlocked for any progress |
| AppSettings.IndexNames | src/utils/appSettings.js:16 | the property names of an indexed value of size n are exactly the decimal names of 0 … n-1 |
| AppSettings.IndexProperties | src/utils/appSettings.js:16 | spreading a string or an array yields exactly the properties named by its indices, index i holding entry i |
| AppSettings.OwnProperties | src/utils/appSettings.js:16 | the own enumerable properties a spread copies: an object's fields, a string's characters or an array's elements under their index names, and nothing for `null`, booleans and numbers |
| AppSettings.IndexPropertiesReadable | src/utils/appSettings.js:16 | every property a spread copies from a string or array is what reading that property gives |
| AppSettings.OwnPropertiesReadable | src/utils/appSettings.js:10-16 | every own property a spread copies is what `value[k]` reads, for every kind of value |
| AppSettings.LockStyleOf | src/utils/appSettings.js:10 | `rawSettings.lockStyle` is present exactly on an object that has that property, and is that property; strings, arrays and scalars have none |
| AppSettings.KeptLockStyle | src/utils/appSettings.js:10-12 | the kept lock style is always one of the three valid ones: the given one when it is valid, otherwise the default |
| AppSettings.Normalized | src/utils/appSettings.js:14-18 | the spread result has exactly the value's own keys plus the lock style, copies every other property, and holds the kept lock style |
| AppSettings.NormalizeSettings | src/utils/appSettings.js:9-19 | `null` throws; an omitted argument gives the defaults; otherwise the result is the defaults overlaid with the value's own properties, with a lock style that is always valid (kept if valid, else the default) |
| AppSettings.NormalizeIdempotent | src/utils/appSettings.js:9-19 | normalising a normalised object changes nothing |
| AppSettings.SaveAppSettings | src/utils/appSettings.js:36-41 | what is stored and returned is the normalised value, with a valid lock style; `null` throws |
| AppSettings.GetAppSettings | src/utils/appSettings.js:21-34 | nothing stored, unparsable text or a throwing normalisation give the defaults; otherwise the normalised parsed value; the lock style is always valid |
| AppSettings.SaveThenGetRoundTrip | src/utils/appSettings.js:21-41 | reading back what was saved gives exactly what saving returned |
| JsValue.Member | src/context/LanguageContext.jsx:39 | `value?.[k]` on an object is defined exactly when it has the property, and is that property; on a string it is the character at an index name, and on an array the element, with `length` giving the size and any other name `undefined`; on `undefined`, `null`, booleans and numbers it is `undefined` |
| JsValue.DecimalString | src/context/LanguageContext.jsx:39 | the canonical name of index n: a non-empty run of decimal digits, one digit exactly for n below ten |
| JsValue.DecimalStringInjective | src/context/LanguageContext.jsx:39 | two indices with the same name are the same index |
| JsValue.NotAnIndex | src/context/LanguageContext.jsx:39 | a name that does not start with a digit (such as `length` or `lockStyle`) names no index |
| JsValue.IndexKey | src/context/LanguageContext.jsx:39 | the index below n a property name denotes, found exactly when some index below n has that name |
| JsValue.IndexKeysCanonical | src/context/LanguageContext.jsx:39 | the name of each index below n denotes exactly that index |
| JsValue.IndexedMember | src/context/LanguageContext.jsx:39 | on a string or array, `length` reads the size, an index name reads the entry there, and any other name reads `undefined` |
| Language.InitialLanguage | src/context/LanguageContext.jsx:16-22 | the initial language is the saved code when it is supported, otherwise the default; it is always supported |
| Language.ChangeLanguage | src/context/LanguageContext.jsx:28-32 | a supported code replaces the language; any other request is ignored |
| Language.LanguageAlwaysSupported | src/context/LanguageContext.jsx:16-32 | from any saved value and across any sequence of change requests, the language stays supported |
| Language.ChangesKeepSupported | src/context/LanguageContext.jsx:28-32 | change requests never leave the supported set |
| Language.IndexOfChar | src/context/LanguageContext.jsx:35 | position of the first separator, none exactly when it is absent |
| Language.Split | src/context/LanguageContext.jsx:35 | `split('.')` yields at least one separator-free piece, and joining the pieces gives back the key |
| Language.SplitJoin | src/context/LanguageContext.jsx:35 | splitting a join of separator-free pieces returns the pieces |
| Language.UndefinedStaysUndefined | src/context/LanguageContext.jsx:38-40 | once the optional-chaining walk reaches `undefined` it stays there without error |
| Language.DescendConcat | src/context/LanguageContext.jsx:38-40 | walking a concatenated path is walking the first part and then the second |
| Language.MissingSegmentIsUndefined | src/context/LanguageContext.jsx:38-40 | a missing segment at any depth makes the whole lookup `undefined` |
| Language.Translate | src/context/LanguageContext.jsx:34-43 | `t(key)` is the value at the dotted path when that value is truthy, else the key itself |
| Language.TranslatePath | src/context/LanguageContext.jsx:34-43 | a key built from separator-free segments translates to the value at that path if truthy, else to the key |
| Language.CurrentLanguageName | src/context/LanguageContext.jsx:46 | the tree's truthy `language` entry, else the language code |
| GameCommon.Completion | src/games/BondTypesSorting/BondTypesSorting.jsx:103-109 | a report carries the score and total and passes exactly when the score reaches the passing score |
| Sorting.FindItem | src/games/BondPolarityQuiz/BondPolarityQuiz.jsx:50 | `find` by id: a found item is in the list and has the id; none exactly when no item has it |
| Sorting.FindCategory | src/games/BondPolarityQuiz/BondPolarityQuiz.jsx:41 | `find` by id: a found category is in the table and has the id; none exactly when no category has it |
| Sorting.ValidatePlacement | src/games/BondPolarityQuiz/BondPolarityQuiz.jsx:39-46 | a placement is correct exactly when item and category both exist and the item's flag equals what the category accepts; a missing one is incorrect |
| Sorting.RemoveItem | src/games/BondPolarityQuiz/BondPolarityQuiz.jsx:56 | `filter` by id keeps exactly the other items, in their original order, and an absent id leaves the list unchanged |
| Sorting.DistinctIdsCons | src/games/BondPolarityQuiz/BondPolarityQuiz.jsx:56 | a list with distinct ids stays distinct when an item with a new id is put in front |
| Sorting.RemoveItemDistinct | src/games/BondPolarityQuiz/BondPolarityQuiz.jsx:56 | filtering a list with distinct ids keeps the ids distinct |
| Sorting.RemoveItemSize | src/games/BondPolarityQuiz/BondPolarityQuiz.jsx:56 | filtering out a present id from a list with distinct ids removes exactly one element |
| Sorting.BucketIndex | src/games/BondPolarityQuiz/BondPolarityQuiz.jsx:59-62 | the position of the category's bucket, none exactly when no bucket has that id |
| Sorting.Place | src/games/BondPolarityQuiz/BondPolarityQuiz.jsx:55-68 | the item leaves the available list and is appended to its category's bucket (all other buckets unchanged), the placed total grows by one, and its verdict is recorded with other verdicts untouched |
| Sorting.PlaceConserves | src/games/BondPolarityQuiz/BondPolarityQuiz.jsx:55-62 | placing an available item of a distinct-id list keeps available plus placed constant |
| Sorting.SameCategories | src/games/BondPolarityQuiz/BondPolarityQuiz.jsx:59-62 | boards with the same bucket ids have the same buckets |
| Sorting.FreshBoardWellFormed | src/games/BondPolarityQuiz/BondPolarityQuiz.jsx:30-36 | the mount board over distinct items is well formed |
| Sorting.EmptyBucketsTotal | src/games/BondPolarityQuiz/BondPolarityQuiz.jsx:89-92 | empty buckets total zero placed items |
| Sorting.PlacePreservesWellFormed | src/games/BondPolarityQuiz/BondPolarityQuiz.jsx:55-68 | a placement keeps ids distinct, no available item with a verdict, one verdict per placed item, and conserves the item count |
| Sorting.Score | src/games/BondTypesSorting/BondTypesSorting.jsx:115-117 | the score counts the correct verdicts and never exceeds the number of verdicts |
| Sorting.CheckCompletion | src/games/BondTypesSorting/BondTypesSorting.jsx:92-113 | results exist exactly when the placed total reaches the item total, with the correct-verdict count as score and the pass rule applied |
| BondTypesSorting.Start | src/games/BondTypesSorting/BondTypesSorting.jsx:17-28 | the mount state has the shuffled deck, empty "chemical" and "not-chemical" buckets and no selection |
| BondTypesSorting.ValidateItem | src/games/BondTypesSorting/BondTypesSorting.jsx:30-37 | correct exactly when item and zone exist and the item's `isChemicalBond` equals the zone's `accepts` |
| BondTypesSorting.HandleItemSelect | src/games/BondTypesSorting/BondTypesSorting.jsx:39-42 | selects the item and clears feedback, leaving the board alone |
| BondTypesSorting.HandleZoneClick | src/games/BondTypesSorting/BondTypesSorting.jsx:44-90 | no selection gives the info banner; a selection not on the deck does nothing; otherwise the item is placed in the clicked zone with its verdict, the banner shows the verdict, the selection clears and the completion screen is left as it was |
| BondTypesSorting.ClickConserves | src/games/BondTypesSorting/BondTypesSorting.jsx:54-66 | a committing click moves exactly one item from the deck to a zone |
| BondTypesSorting.GetScore | src/games/BondTypesSorting/BondTypesSorting.jsx:115-117 | the score is the number of correct verdicts |
| BondTypesSorting.CheckCompletion | src/games/BondTypesSorting/BondTypesSorting.jsx:92-113 | completion (and its report) happens exactly when every item is placed; otherwise nothing changes |
| BondTypesSorting.Step | src/games/BondTypesSorting/BondTypesSorting.jsx:39-164 | no action adds, removes or renames a zone bucket; closing the banner (`onDismiss`) clears it while the board shows and changes nothing else |
| BondTypesSorting.PlayKeepsBoard | src/games/BondTypesSorting/BondTypesSorting.jsx:39-90 | any run of selections and clicks keeps the board well formed and never loses or duplicates an item |
| BondTypesSorting.CompletesWhenDeckEmpty | src/games/BondTypesSorting/BondTypesSorting.jsx:92-113 | from mount over the four distinct items, the game completes exactly when the deck is empty, with a score of at most four |
| BondPolarityQuiz.Start | src/games/BondPolarityQuiz/BondPolarityQuiz.jsx:28-37 | the mount state has the shuffled bonds and empty "polar" and "nonpolar" buckets |
| BondPolarityQuiz.ValidateBond | src/games/BondPolarityQuiz/BondPolarityQuiz.jsx:39-46 | correct exactly when bond and category exist and `isPolar` equals the category's `accepts` |
| BondPolarityQuiz.HandleDropBond | src/games/BondPolarityQuiz/BondPolarityQuiz.jsx:48-86 | a bond not in the list is ignored; otherwise it is placed in the category with its verdict and the banner shows that verdict |
| BondPolarityQuiz.DropTwiceIsDropOnce | src/games/BondPolarityQuiz/BondPolarityQuiz.jsx:50-51 | dropping the same bond again changes nothing |
| BondPolarityQuiz.DropConserves | src/games/BondPolarityQuiz/BondPolarityQuiz.jsx:55-62 | each drop keeps available plus placed constant |
| BondPolarityQuiz.Dismiss | src/games/BondPolarityQuiz/BondPolarityQuiz.jsx:169-175 | closing the banner (`onDismiss`) clears it while the board shows, changes nothing else, and does nothing after completion |
| BondPolarityQuiz.CheckCompletion | src/games/BondPolarityQuiz/BondPolarityQuiz.jsx:88-120 | completion happens exactly when all bonds are placed, reporting the correct count and the pass rule |
| BondPolarityQuiz.OnDragEnd | src/games/BondPolarityQuiz/BondPolarityQuiz.jsx:185-221 | a cancelled or not-live drag leaves the game alone; otherwise, when the hit test under the release point finds a category, that category has a bucket and the bond is dropped there with `handleDropBond`, and with no category the game is unchanged; the session ends as the hook says |
| BondPolarityQuiz.ReleaseInsideCategoryCommits | src/games/BondPolarityQuiz/BondPolarityQuiz.jsx:181-185 | since every category accepts everything, releasing a live drag inside any category commits the bond to the first category hit |
| BondPolarityQuiz.DropAll | src/games/BondPolarityQuiz/BondPolarityQuiz.jsx:48-86 | a run of drops never adds, removes or renames a bucket |
| BondPolarityQuiz.DropAllKeepsBoard | src/games/BondPolarityQuiz/BondPolarityQuiz.jsx:48-86 | any run of drops keeps the board well formed and conserves bonds |
| BondPolarityQuiz.CompletesWhenListEmpty | src/games/BondPolarityQuiz/BondPolarityQuiz.jsx:88-120 | from mount over the ten distinct bonds, the quiz completes exactly when the list is empty, with a score of at most ten |
| ElectronegativityMatch.Start | src/games/ElectronegativityMatch/ElectronegativityMatch.jsx:27-33 | the mount state has the shuffled values, no matches, no attempts and no completion pending |
| ElectronegativityMatch.FindValue | src/games/ElectronegativityMatch/ElectronegativityMatch.jsx:41 | `find` by id: a found value is in the table and has the id; none exactly when no value has it |
| ElectronegativityMatch.FindElement | src/games/ElectronegativityMatch/ElectronegativityMatch.jsx:42 | `find` by id: a found element is in the table and has the id; none exactly when no element has it |
| ElectronegativityMatch.RemoveValue | src/games/ElectronegativityMatch/ElectronegativityMatch.jsx:49 | `filter` by id keeps exactly the other values, in their original order, and an absent id leaves the list unchanged |
| ElectronegativityMatch.RemoveValueDistinct | src/games/ElectronegativityMatch/ElectronegativityMatch.jsx:49 | filtering a list with distinct ids keeps the ids distinct |
| ElectronegativityMatch.RemoveValueSize | src/games/ElectronegativityMatch/ElectronegativityMatch.jsx:49 | filtering out a present id from a list with distinct ids removes exactly one value |
| ElectronegativityMatch.RecordKeepsJudged | src/games/ElectronegativityMatch/ElectronegativityMatch.jsx:46-56 | adding a truthfully judged match on a known element keeps every match judged truthfully |
| ElectronegativityMatch.RecordKeepsUsedGone | src/games/ElectronegativityMatch/ElectronegativityMatch.jsx:49-56 | removing the dropped value while recording it keeps every used value off the list |
| ElectronegativityMatch.Judge | src/games/ElectronegativityMatch/ElectronegativityMatch.jsx:46 | a match is correct exactly when the value equals the element's electronegativity |
| ElectronegativityMatch.HandleDropValue | src/games/ElectronegativityMatch/ElectronegativityMatch.jsx:35-84 | a drop on a matched element is ignored; otherwise the attempt counts; an unknown id changes nothing else; otherwise the element records the judged match, other matches stay, the value leaves the list, and a match that brings the count to the total schedules a completion capturing the new matches |
| ElectronegativityMatch.CorrectCount | src/games/ElectronegativityMatch/ElectronegativityMatch.jsx:87 | the correct matches number at most the matches |
| ElectronegativityMatch.Complete | src/games/ElectronegativityMatch/ElectronegativityMatch.jsx:58-97 | the oldest delayed call reports the correct count of the matches it captured, the total and the pass rule, is consumed, and shows completion |
| ElectronegativityMatch.Dismiss | src/games/ElectronegativityMatch/ElectronegativityMatch.jsx:149-155 | closing the banner (`onDismiss`) clears it while the board shows, changes nothing else, and does nothing after completion |
| ElectronegativityMatch.StartConsistent | src/games/ElectronegativityMatch/ElectronegativityMatch.jsx:27-33 | the mount state satisfies the invariant |
| ElectronegativityMatch.DropKeepsConsistent | src/games/ElectronegativityMatch/ElectronegativityMatch.jsx:35-84 | every drop keeps the invariant: matches on known elements, judged truthfully, no used value still available, distinct ids, and a completion pending only once enough elements match, capturing truthfully judged matches |
| ElectronegativityMatch.DropAvailableConserves | src/games/ElectronegativityMatch/ElectronegativityMatch.jsx:46-56 | dropping an available value on an open element keeps list plus matches constant |
| ElectronegativityMatch.ElementIds | src/games/ElectronegativityMatch/electronegativityData.js:5-62 | the set of element ids is exactly the ids the table finds |
| ElectronegativityMatch.ElementIdsBound | src/games/ElectronegativityMatch/electronegativityData.js:5-62 | there are no more element ids than elements |
| ElectronegativityMatch.JudgedMatchesBound | src/games/ElectronegativityMatch/ElectronegativityMatch.jsx:46-56 | truthfully judged matches sit on distinct elements of the table, so they number at most the elements |
| ElectronegativityMatch.FullMatchesCoverTable | src/games/ElectronegativityMatch/ElectronegativityMatch.jsx:58-63 | when the total is the table size, judged matches reaching the total cover every element |
| ElectronegativityMatch.ScheduledMeansAllMatched | src/games/ElectronegativityMatch/ElectronegativityMatch.jsx:59-63 | with a completion pending every element is matched, and the score it reports is at most the total |
| ElectronegativityMatch.MatchesFrozenAfterScheduling | src/games/ElectronegativityMatch/ElectronegativityMatch.jsx:36-63 | with a completion pending, every drop is ignored: the matches and the list no longer change |
| ElectronegativityMatch.MatchedElementNeverTarget | src/games/ElectronegativityMatch/ElectronegativityMatch.jsx:166 | with `() => !matched` acceptance, a drag never settles on a matched element |
| ElectronegativityMatch.OnDragEnd | src/games/ElectronegativityMatch/ElectronegativityMatch.jsx:172-198 | a cancelled or not-live drag leaves the game alone; otherwise, when the hit test under the release point finds an element, the value is dropped on it with `handleDropValue`, and with no element the game is unchanged |
| ElectronegativityMatch.DragEndKeepsConsistent | src/games/ElectronegativityMatch/ElectronegativityMatch.jsx:172-198 | ending any drag keeps the invariant |
| ElectronegativityMatch.Step | src/games/ElectronegativityMatch/ElectronegativityMatch.jsx:35-198 | a report comes only from a timer with a completion pending, and is the oldest pending call's captured correct count, the total and the pass rule; completion stays shown once shown, and drops after it change nothing |
| ElectronegativityMatch.Play | src/games/ElectronegativityMatch/ElectronegativityMatch.jsx:35-198 | a run never hides the completion screen once shown |
| ElectronegativityMatch.StartReachable | src/games/ElectronegativityMatch/ElectronegativityMatch.jsx:27-33 | the mount state over distinct values satisfies the run invariant |
| ElectronegativityMatch.OpenElementBelowSize | src/games/ElectronegativityMatch/ElectronegativityMatch.jsx:36-63 | an unmatched element of the table means fewer matches than elements |
| ElectronegativityMatch.DropKeepsReachable | src/games/ElectronegativityMatch/ElectronegativityMatch.jsx:35-84 | a drop keeps at most one completion pending, capturing the current matches, scheduled exactly when the matches reach the total |
| ElectronegativityMatch.StepKeepsReachable | src/games/ElectronegativityMatch/ElectronegativityMatch.jsx:35-198 | every action keeps the run invariant, and a report scores at most the total and comes before completion |
| ElectronegativityMatch.PlayReportsOnce | src/games/ElectronegativityMatch/ElectronegativityMatch.jsx:58-97 | any run reports at most once (never after completion), with a score of at most the total, and a report leaves completion shown |
| ElectronegativityMatch.DataReportsAtMostOnce | src/games/ElectronegativityMatch/electronegativityData.js:5-80 | with the game's table, any run from mount reports at most once, scoring at most 8 of 8, and only once all eight elements are matched |
| FillInTheBlank.ClearBlank | src/games/FillInTheBlank/FillInTheBlank.jsx:42-49 | an empty blank stays as it is; a filled one is removed; other blanks are untouched |
| FillInTheBlank.HandleDropWord | src/games/FillInTheBlank/FillInTheBlank.jsx:51-64 | the word fills the target blank, leaves every other blank that held it, other blanks keep their words, and no word ends up in two blanks |
| FillInTheBlank.ClearUndoesDrop | src/games/FillInTheBlank/FillInTheBlank.jsx:42-64 | dropping a new word on an empty blank and clearing that blank restores the placements |
| FillInTheBlank.Evaluate | src/games/FillInTheBlank/FillInTheBlank.jsx:91-127 | nothing happens while advancing or after completion; an incomplete sentence only clears an error banner; a full one shows the verdict, and the advance starts exactly on a correct one |
| FillInTheBlank.AdvanceIffCorrect | src/games/FillInTheBlank/FillInTheBlank.jsx:91-122 | with non-empty answers, the advance starts exactly when every blank holds its answer |
| FillInTheBlank.CorrectResults | src/games/FillInTheBlank/FillInTheBlank.jsx:78 | the correct count is at most the results, and is all of them when all are correct |
| FillInTheBlank.Advance | src/games/FillInTheBlank/FillInTheBlank.jsx:66-89 | the exercise is recorded correct; before the last exercise the game moves on with empty blanks, after it it reports the count, the total and the pass rule |
| FillInTheBlank.Step | src/games/FillInTheBlank/FillInTheBlank.jsx:42-174 | a report comes only from the timer at the last exercise, and it carries the total and the pass rule; closing the banner (`onDismiss`) clears it, changes nothing else and triggers no evaluation |
| FillInTheBlank.StepKeepsReachable | src/games/FillInTheBlank/FillInTheBlank.jsx:42-127 | every action keeps one correct result per finished exercise and no word in two blanks, and a report scores every exercise |
| FillInTheBlank.PlayReportsOnePass | src/games/FillInTheBlank/FillInTheBlank.jsx:66-127 | any run reports at most once (never after completion), and every report scores all exercises |
| FillInTheBlank.DataAlwaysPasses | src/games/FillInTheBlank/fillInTheBlankData.js:1-63 | with the game's three exercises, every run reports at most once and always passes with full score |
| MoleculeBuilder.AddAtom | src/games/MoleculeBuilder/MoleculeBuilder.jsx:25-30 | an atom on the palette is appended; any other is ignored |
| MoleculeBuilder.RemoveAtom | src/games/MoleculeBuilder/MoleculeBuilder.jsx:32-34 | the atom at a valid position is removed: one fewer, the atoms before it unchanged, the atoms after it shifted down one place in the same order, and one copy fewer; any other position changes nothing |
| MoleculeBuilder.RemoveUndoesAdd | src/games/MoleculeBuilder/MoleculeBuilder.jsx:25-34 | removing the atom just added restores the selection |
| MoleculeBuilder.ClearSelection | src/games/MoleculeBuilder/MoleculeBuilder.jsx:36-39 | `clearSelection` empties the selection and the bond type and leaves every other part of the screen as it was |
| MoleculeBuilder.ClearThenCheckIgnored | src/games/MoleculeBuilder/MoleculeBuilder.jsx:36-252 | after Clear the Check button is disabled, with the button as written and with the corrected one, so a Check right after it changes nothing |
| MoleculeBuilder.AtomCounts | src/games/MoleculeBuilder/MoleculeBuilder.jsx:45-48 | the per-element counts are exactly the selection's multiplicities |
| MoleculeBuilder.RequiredAtoms | src/games/MoleculeBuilder/MoleculeBuilder.jsx:56 | the required atoms as a multiset, whose size is the required total |
| MoleculeBuilder.RequiredAtomsAt | src/games/MoleculeBuilder/moleculeBuilderData.js:5-84 | with one entry per element, each element is required exactly its count |
| MoleculeBuilder.AtomsCorrectIffSameMultiset | src/games/MoleculeBuilder/MoleculeBuilder.jsx:45-58 | the count test plus the total test hold exactly when the selection is the molecule's atoms in any order |
| MoleculeBuilder.RequiredCounts | src/games/MoleculeBuilder/MoleculeBuilder.jsx:51-53 | the required multiset holds each listed element exactly its required count |
| MoleculeBuilder.CountsMatchRequired | src/games/MoleculeBuilder/MoleculeBuilder.jsx:51-53 | when the count test passes, the selection holds each required element exactly its required count |
| MoleculeBuilder.SubMultisetSameSize | src/games/MoleculeBuilder/MoleculeBuilder.jsx:56-58 | a sub-multiset of the same size is the whole multiset |
| MoleculeBuilder.AtomsCorrectImpliesSameMultiset | src/games/MoleculeBuilder/MoleculeBuilder.jsx:45-58 | passing the count and total tests means the selection is the molecule's atoms in some order |
| MoleculeBuilder.SameMultisetImpliesAtomsCorrect | src/games/MoleculeBuilder/MoleculeBuilder.jsx:45-58 | a selection that is the molecule's atoms in some order passes the count and total tests |
| MoleculeBuilder.Judge | src/games/MoleculeBuilder/MoleculeBuilder.jsx:51-93 | the verdict needs matching counts, no extras and the right bond; an error banner carries the atom hint and the bond hint for the tests that failed |
| MoleculeBuilder.CheckCorrectIff | src/games/MoleculeBuilder/MoleculeBuilder.jsx:45-63 | Check accepts exactly the right atoms in any order with the right bond |
| MoleculeBuilder.CheckMolecule | src/games/MoleculeBuilder/MoleculeBuilder.jsx:41-105 | Check appends the current molecule's verdict, shows its banner and schedules an advance capturing the index and the new results |
| MoleculeBuilder.CorrectResults | src/games/MoleculeBuilder/MoleculeBuilder.jsx:108 | the correct count is at most the results |
| MoleculeBuilder.FireTimer | src/games/MoleculeBuilder/MoleculeBuilder.jsx:96-118 | an advance clears the banner; before the last molecule the index goes up and the selection clears; at the last it reports the captured results' correct count, the total and the pass rule |
| MoleculeBuilder.Apply | src/games/MoleculeBuilder/MoleculeBuilder.jsx:25-186 | only a timer can produce a report; once completion shows only timers act; Add, Remove and the bond choice change only the selection or the bond, through `addAtom`, `removeAtom` and the chosen id; Clear is `clearSelection`; Check either does nothing or runs `checkMolecule`; closing the banner (`onDismiss`) clears it and changes nothing else |
| MoleculeBuilder.WaterSelectionPasses | src/games/MoleculeBuilder/moleculeBuilderData.js:5-18 | oxygen, hydrogen, hydrogen with a covalent bond passes for water |
| MoleculeBuilder.CheckAsWritten | src/games/MoleculeBuilder/MoleculeBuilder.jsx:41-105 | with the button as written, Check runs the check whenever completion is not shown, even with an advance pending |
| MoleculeBuilder.TimerAdvances | src/games/MoleculeBuilder/MoleculeBuilder.jsx:96-104 | a timer before the last molecule moves to the next one, clears the selection and drops the advance it ran |
| MoleculeBuilder.DoubleCheckSkips | src/games/MoleculeBuilder/MoleculeBuilder.jsx:96-104 | for any game of three or more molecules, two Checks on the first one record it twice and the two timers land on the third |
| MoleculeBuilder.DoubleCheckAtLastReportsTwice | src/games/MoleculeBuilder/MoleculeBuilder.jsx:96-118 | with the button as written, two Checks on the last molecule make both timers report completion |
| MoleculeBuilder.DoubleCheckSkipsMolecule | src/games/MoleculeBuilder/MoleculeBuilder.jsx:96-104 | with the button as written, two Checks before the advance record water twice and skip methane |
| MoleculeBuilder.ApplyKeepsReachable | src/games/MoleculeBuilder/MoleculeBuilder.jsx:41-118 | with Check disabled while an advance is pending, each action keeps at most one pending advance, the i-th result belongs to the i-th molecule, and a report covers one result per molecule |
| MoleculeBuilder.PlayReportsOnce | src/games/MoleculeBuilder/MoleculeBuilder.jsx:96-118 | with the corrected button, any run reports at most once (never after completion), with a score of at most the number of molecules |
| MoleculeBuilder.StartReachable | src/games/MoleculeBuilder/MoleculeBuilder.jsx:16-21 | the mount state satisfies the invariant |
| BondFormation.Start | src/games/BondFormation/BondFormation.jsx:16-23 | the mount state has the shuffled atoms, an empty selection, no bonds and nothing scheduled |
| BondFormation.MatchingPair | src/games/BondFormation/BondFormation.jsx:52-56 | the first pair of the table containing both atoms, which must differ; none exactly when the atoms are equal or no pair holds both |
| BondFormation.RemovePair | src/games/BondFormation/BondFormation.jsx:69-71 | `filter` keeps exactly the other atoms, in their original order, and removes one element per distinct checked atom present |
| BondFormation.CheckBond | src/games/BondFormation/BondFormation.jsx:47-100 | every check counts an attempt and schedules a selection clear; no pair gives the error banner; a pair forms, its atoms leave the board, and completion is scheduled when it is the last bond needed |
| BondFormation.HandleAtomClick | src/games/BondFormation/BondFormation.jsx:25-45 | a selected atom is deselected; a first atom is selected; a second triggers the check; with two selected the click is ignored |
| BondFormation.Without | src/games/BondFormation/BondFormation.jsx:29 | `filter` removes exactly that atom |
| BondFormation.ClickTwiceDeselects | src/games/BondFormation/BondFormation.jsx:25-33 | two clicks on one atom from an empty selection leave the game unchanged |
| BondFormation.Step | src/games/BondFormation/BondFormation.jsx:25-169 | a report comes only from a completion timer, carrying its captured count, the pair total and the pass rule; closing the banner (`onDismiss`) clears it while the board shows and changes nothing else |
| BondFormation.Play | src/games/BondFormation/BondFormation.jsx:25-112 | every atom shown or selected stays one of the table's |
| BondFormation.StartReachable | src/games/BondFormation/BondFormation.jsx:16-23 | the mount state over the distinct atoms satisfies the invariant |
| BondFormation.ClickKeepsReachable | src/games/BondFormation/BondFormation.jsx:25-100 | a click on a shown atom keeps the board distinct, two atoms off per bond, and completion scheduled only when every pair formed |
| BondFormation.CompletionKeepsReachable | src/games/BondFormation/BondFormation.jsx:77-112 | the completion timer keeps the invariant and its report scores every pair |
| BondFormation.StepKeepsReachable | src/games/BondFormation/BondFormation.jsx:25-112 | each action keeps the board distinct, two atoms off per bond, and completion scheduled at most once, exactly when every pair formed; a report scores every pair |
| BondFormation.PlayReportsAllPairs | src/games/BondFormation/BondFormation.jsx:77-112 | any run reports at most once (never after completion), scoring every pair |
| BondFormation.DataAlwaysPasses | src/games/BondFormation/bondFormationData.js:80-123 | with the game's data, every run reports at most once and passes with all four bonds |
| BondFormation.PlayReportsPass | src/games/BondFormation/BondFormation.jsx:102-112 | every report passes exactly when its score reaches the passing score |

## Left out

- The bond-basket catcher game is not part of this model. Its behaviour is driven by animation frames, timers, randomness and floating-point motion.
- Rendering, CSS, navigation and the React component tree are not modelled. Only the state the handlers read and write is.
- Persistence is abstracted:
  - `localStorage` and JSON text are replaced by the parsed value they carry (`AppSettings.Stored`);
  - the saved language is an `Option` parameter;
  - the settings share link (`btoa`/`atob`, URL handling) is not modelled.
- The `lastPlayed` timestamp of a progress record is not modelled, because it comes from the clock.
- `shuffleArray` is not modelled. Each `Start` takes the shuffled list as a parameter.
- Message texts and translated strings are not modelled. A banner keeps only its kind, plus the two hint flags in the molecule builder.
- The timers that only clear a feedback banner are not modelled: 2 s and 5 s in bond-types sorting, 5 s in the polarity quiz, 4 s in the electronegativity match.
- The polarity quiz's 1-second delayed completion check is modelled as calling `CheckCompletion` directly, and so is the explicit "Check Results" button of bond-types sorting.
- Updates that React batches are applied in order within one step. Each handler is atomic.
- Sorting.FindItem: states that a found entry has the id, not that it is the first such entry; wherever the model relies on the lookup, ids are distinct, so the two agree.
- Sorting.FindCategory: states that a found entry has the id, not that it is the first such entry; wherever the model relies on the lookup, ids are distinct, so the two agree.
- ElectronegativityMatch.FindValue: states that a found entry has the id, not that it is the first such entry; wherever the model relies on the lookup, ids are distinct, so the two agree.
- ElectronegativityMatch.FindElement: states that a found entry has the id, not that it is the first such entry; wherever the model relies on the lookup, ids are distinct, so the two agree.
- BondFormation.Step: pending clear and completion timers may fire in any order. This allows every real interleaving of the 5-second and 2-second timers, plus orders the clock would not produce.
- MoleculeBuilder.Apply: a Check past the last molecule is ignored. In the source, the screen would already have failed to render there.
- The hook has no visual proxy, pointer capture or auto-scroll code, so none is modelled.
- The touch scroll lock is a single flag. The style value is not modelled.
- JsValue.Value: non-integer numbers are not modelled. No modelled path compares or reads one.
- JsValue.Member: only own properties are read. Inherited prototype properties (`constructor`, `toString`, `hasOwnProperty`, …) give `undefined` in the model, where JavaScript finds a function. The translation keys the screens pass are fixed dotted names under `common`, `games` and `navigation`, plus ids from the game data, and none of their segments names a prototype member.
- Language.Translate: inherits the JsValue.Member gap. A key whose segment names a prototype member (say `common.constructor`) translates to the key in the model, but to a function's source text in JavaScript. The translation trees (src/locales/*.json) are not part of this model, so the model holds for any tree.
- Language.MissingSegmentIsUndefined: "missing" means not an own property. A segment naming a prototype member is missing in the model but found in JavaScript; see JsValue.Member.
- Strings are sequences of characters. Spreading a string into settings is modelled per character, not per UTF-16 code unit.
- The fill-in-the-blank word bank display (which words are shown as used) is not modelled. Only the placements are.

## Findings

| source | as written | input that shows it | evidently intended | confidence | as-written member | corrected member |
|---|---|---|---|---|---|---|
| src/games/MoleculeBuilder/MoleculeBuilder.jsx:96-104 | The Check button (line 250) stays enabled during the 3-second delay, and every press records a verdict and schedules its own advance. | Select O, H, H and a covalent bond, then press Check twice before the delay ends: water is recorded twice and both advances fire, so methane is skipped. Two presses at the last molecule report completion twice. | One verdict and one advance per molecule: Check disabled while an advance is pending. | not executed | MoleculeBuilder.DoubleCheckSkipsMolecule, MoleculeBuilder.DoubleCheckAtLastReportsTwice | MoleculeBuilder.PlayReportsOnce |
