/**
 * The "sort each item into a category" board shared by the bond-polarity quiz and
 * the bond-types sorting game: items move from the available list into a
 * category's bucket, and each placement records a correct/incorrect verdict.
 */
module Sorting {
  import opened Wrappers
  import ProgressManager
  import GameCommon

  /** An item with the flag its category must match (`isPolar`, `isChemicalBond`). */
  datatype Item = Item(id: string, flag: bool)

  /** A category and the flag value it accepts. */
  datatype Category = Category(id: string, accepts: bool)

  datatype Verdict = Correct | Incorrect

  /** An item as stored in a bucket: `{ ...item, categoryId }`. */
  datatype PlacedItem = PlacedItem(item: Item, categoryId: string)

  /** One property of the placed-items object: a category id and its items, in placement order. */
  datatype Bucket = Bucket(categoryId: string, items: seq<PlacedItem>)

  /** Available items, placed items per category, and the verdict recorded per item id. */
  datatype Board = Board(available: seq<Item>, placed: seq<Bucket>, states: map<string, Verdict>)

  /** `items.find((i) => i.id === id)`. */
  function FindItem(items: seq<Item>, id: string): (r: Option<Item>)
    ensures r.Some? ==> r.value in items && r.value.id == id
    ensures r.None? <==> forall i :: 0 <= i < |items| ==> items[i].id != id
  {
    if |items| == 0 then None
    else if items[0].id == id then Some(items[0])
    else FindItem(items[1..], id)
  }

  /** `categories.find((c) => c.id === id)`. */
  function FindCategory(categories: seq<Category>, id: string): (r: Option<Category>)
    ensures r.Some? ==> r.value in categories && r.value.id == id
    ensures r.None? <==> forall i :: 0 <= i < |categories| ==> categories[i].id != id
  {
    if |categories| == 0 then None
    else if categories[0].id == id then Some(categories[0])
    else FindCategory(categories[1..], id)
  }

  /** `validatePlacement(itemId, categoryId)` over the game's item and category tables. */
  function ValidatePlacement(items: seq<Item>, categories: seq<Category>, itemId: string, categoryId: string): (r: bool)
    ensures r <==> FindItem(items, itemId).Some? && FindCategory(categories, categoryId).Some?
                   && FindItem(items, itemId).value.flag == FindCategory(categories, categoryId).value.accepts
    ensures (forall i :: 0 <= i < |items| ==> items[i].id != itemId) ==> !r
    ensures (forall i :: 0 <= i < |categories| ==> categories[i].id != categoryId) ==> !r
  {
    match (FindItem(items, itemId), FindCategory(categories, categoryId))
    case (Some(item), Some(category)) => item.flag == category.accepts
    case _ => false
  }

  predicate DistinctIds(items: seq<Item>) {
    forall i, j :: 0 <= i < j < |items| ==> items[i].id != items[j].id
  }

  /** `available.filter((i) => i.id !== id)`. */
  function RemoveItem(items: seq<Item>, id: string): (r: seq<Item>)
    ensures forall x :: x in r <==> x in items && x.id != id
    ensures FindItem(items, id).None? ==> r == items
    ensures GameCommon.Subsequence(r, items)
  {
    if |items| == 0 then []
    else if items[0].id == id then RemoveItem(items[1..], id)
    else [items[0]] + RemoveItem(items[1..], id)
  }

  /** Prepending an element whose id is new keeps ids distinct. */
  lemma DistinctIdsCons(x: Item, rest: seq<Item>)
    requires DistinctIds(rest) && forall y :: y in rest ==> y.id != x.id
    ensures DistinctIds([x] + rest)
  {
    var r := [x] + rest;
    forall i, j | 0 <= i < j < |r| ensures r[i].id != r[j].id {
      assert r[j] == rest[j - 1];
      if i > 0 {
        assert r[i] == rest[i - 1];
      }
    }
  }

  /** Over distinct ids, the filter keeps ids distinct. */
  lemma {:induction false} RemoveItemDistinct(items: seq<Item>, id: string)
    requires DistinctIds(items)
    ensures DistinctIds(RemoveItem(items, id))
  {
    if |items| > 0 {
      var tail := items[1..];
      assert DistinctIds(tail) by {
        forall i, j | 0 <= i < j < |tail| ensures tail[i].id != tail[j].id {
          assert tail[i] == items[i + 1] && tail[j] == items[j + 1];
        }
      }
      RemoveItemDistinct(tail, id);
      var rest := RemoveItem(tail, id);
      if items[0].id != id {
        assert RemoveItem(items, id) == [items[0]] + rest;
        forall y | y in rest ensures y.id != items[0].id {
          var k :| 0 <= k < |tail| && tail[k] == y;
          assert items[k + 1] == y;
        }
        DistinctIdsCons(items[0], rest);
      }
    }
  }

  /** Over distinct ids, the filter removes exactly the one element found. */
  lemma {:induction false} RemoveItemSize(items: seq<Item>, id: string)
    requires DistinctIds(items) && FindItem(items, id).Some?
    ensures |RemoveItem(items, id)| == |items| - 1
  {
    var tail := items[1..];
    if items[0].id == id {
      assert FindItem(tail, id).None? by {
        forall i | 0 <= i < |tail| ensures tail[i].id != id {
          assert tail[i] == items[i + 1];
        }
      }
    } else {
      assert DistinctIds(tail) by {
        forall i, j | 0 <= i < j < |tail| ensures tail[i].id != tail[j].id {
          assert tail[i] == items[i + 1] && tail[j] == items[j + 1];
        }
      }
      RemoveItemSize(tail, id);
    }
  }

  /** Position of the bucket for `categoryId`, if any. */
  function BucketIndex(placed: seq<Bucket>, categoryId: string): (r: Option<nat>)
    ensures r.Some? ==> r.value < |placed| && placed[r.value].categoryId == categoryId
    ensures r.None? <==> forall i :: 0 <= i < |placed| ==> placed[i].categoryId != categoryId
  {
    if |placed| == 0 then None
    else if placed[0].categoryId == categoryId then Some(0)
    else match BucketIndex(placed[1..], categoryId)
      case None => None
      case Some(k) => Some(k + 1)
  }

  predicate HasBucket(placed: seq<Bucket>, categoryId: string) {
    BucketIndex(placed, categoryId).Some?
  }

  /** `Object.values(placed).reduce((sum, items) => sum + items.length, 0)`. */
  function TotalPlaced(placed: seq<Bucket>): nat
  {
    if |placed| == 0 then 0 else |placed[0].items| + TotalPlaced(placed[1..])
  }

  lemma {:induction false} TotalPlacedAppend(placed: seq<Bucket>, i: nat, p: PlacedItem)
    requires i < |placed|
    ensures TotalPlaced(placed[i := placed[i].(items := placed[i].items + [p])]) == TotalPlaced(placed) + 1
  {
    var after := placed[i := placed[i].(items := placed[i].items + [p])];
    if i == 0 {
      assert after[1..] == placed[1..];
    } else {
      assert after[1..] == placed[1..][i - 1 := placed[1..][i - 1].(items := placed[1..][i - 1].items + [p])];
      TotalPlacedAppend(placed[1..], i - 1, p);
    }
  }

  /**
   * The commit both games perform: take the item out of the available list, append
   * it to its category's bucket, and record its verdict.
   */
  function Place(b: Board, item: Item, categoryId: string, isCorrect: bool): (r: Board)
    requires HasBucket(b.placed, categoryId)
    ensures forall x :: x in r.available <==> x in b.available && x.id != item.id
    ensures |r.placed| == |b.placed|
    ensures forall j :: 0 <= j < |r.placed| ==> r.placed[j].categoryId == b.placed[j].categoryId
    ensures var i := BucketIndex(b.placed, categoryId).value;
            r.placed[i] == Bucket(categoryId, b.placed[i].items + [PlacedItem(item, categoryId)])
            && forall j :: 0 <= j < |b.placed| && j != i ==> r.placed[j] == b.placed[j]
    ensures TotalPlaced(r.placed) == TotalPlaced(b.placed) + 1
    ensures item.id in r.states && r.states[item.id] == (if isCorrect then Correct else Incorrect)
    ensures forall k :: k != item.id ==> (k in r.states <==> k in b.states)
    ensures forall k :: k != item.id && k in b.states ==> r.states[k] == b.states[k]
  {
    var i := BucketIndex(b.placed, categoryId).value;
    var bucket := b.placed[i];
    TotalPlacedAppend(b.placed, i, PlacedItem(item, categoryId));
    Board(RemoveItem(b.available, item.id),
          b.placed[i := bucket.(items := bucket.items + [PlacedItem(item, categoryId)])],
          b.states[item.id := if isCorrect then Correct else Incorrect])
  }

  /**
   * Placing an available item with a unique id conserves the number of items:
   * one fewer available, one more placed.
   */
  lemma PlaceConserves(b: Board, item: Item, categoryId: string, isCorrect: bool)
    requires HasBucket(b.placed, categoryId)
    requires DistinctIds(b.available) && item in b.available
    ensures var r := Place(b, item, categoryId, isCorrect);
            |r.available| + TotalPlaced(r.placed) == |b.available| + TotalPlaced(b.placed)
            && DistinctIds(r.available)
  {
    var k :| 0 <= k < |b.available| && b.available[k] == item;
    assert FindItem(b.available, item.id).Some?;
    RemoveItemDistinct(b.available, item.id);
    RemoveItemSize(b.available, item.id);
  }

  /** Buckets with the same category ids, position by position, have the same categories. */
  lemma SameCategories(a: seq<Bucket>, b: seq<Bucket>, categoryId: string)
    requires |a| == |b| && forall j :: 0 <= j < |a| ==> a[j].categoryId == b[j].categoryId
    ensures HasBucket(a, categoryId) <==> HasBucket(b, categoryId)
  {
    if !HasBucket(a, categoryId) {
      assert forall i :: 0 <= i < |b| ==> b[i].categoryId != categoryId;
    }
  }

  /**
   * The board invariant the games maintain: available ids are distinct and have no
   * verdict yet, and there is exactly one verdict per placed item.
   */
  predicate WellFormed(b: Board) {
    && DistinctIds(b.available)
    && (forall i :: 0 <= i < |b.available| ==> b.available[i].id !in b.states)
    && |b.states| == TotalPlaced(b.placed)
  }

  /** A fresh board (nothing placed, no verdicts) over distinct items is well formed. */
  lemma FreshBoardWellFormed(items: seq<Item>, categoryIds: seq<string>)
    requires DistinctIds(items)
    ensures WellFormed(Board(items, seq(|categoryIds|, i requires 0 <= i < |categoryIds| => Bucket(categoryIds[i], [])), map[]))
  {
    var placed := seq(|categoryIds|, i requires 0 <= i < |categoryIds| => Bucket(categoryIds[i], []));
    EmptyBucketsTotal(placed);
  }

  lemma {:induction false} EmptyBucketsTotal(placed: seq<Bucket>)
    requires forall i :: 0 <= i < |placed| ==> placed[i].items == []
    ensures TotalPlaced(placed) == 0
  {
    if |placed| > 0 {
      EmptyBucketsTotal(placed[1..]);
    }
  }

  /** Placing an available item keeps the board well formed and conserves the item count. */
  lemma PlacePreservesWellFormed(b: Board, item: Item, categoryId: string, isCorrect: bool)
    requires WellFormed(b) && item in b.available && HasBucket(b.placed, categoryId)
    ensures var r := Place(b, item, categoryId, isCorrect);
            WellFormed(r)
            && |r.available| + TotalPlaced(r.placed) == |b.available| + TotalPlaced(b.placed)
  {
    var r := Place(b, item, categoryId, isCorrect);
    PlaceConserves(b, item, categoryId, isCorrect);
    var k :| 0 <= k < |b.available| && b.available[k] == item;
    assert item.id !in b.states;
    assert r.states.Keys == b.states.Keys + {item.id};
    forall i | 0 <= i < |r.available| ensures r.available[i].id !in r.states {
      var x := r.available[i];
      assert x in b.available && x.id != item.id;
    }
  }

  /** `Object.values(states).filter((s) => s === 'correct').length`. */
  function Score(states: map<string, Verdict>): (r: nat)
    ensures r <= |states|
  {
    var correct := set k | k in states && states[k] == Correct;
    assert correct <= states.Keys;
    GameCommon.SubsetSize(correct, states.Keys);
    |correct|
  }

  /** `checkCompletion()`: results only once every item has been placed. */
  function CheckCompletion(b: Board, totalItems: nat, passingScore: nat): (r: Option<ProgressManager.GameResults>)
    ensures r.Some? <==> TotalPlaced(b.placed) == totalItems
    ensures r.Some? ==> r.value.score == Score(b.states) && r.value.totalItems == totalItems
    ensures r.Some? ==> (r.value.passed <==> Score(b.states) >= passingScore)
  {
    if TotalPlaced(b.placed) == totalItems
    then Some(GameCommon.Completion(Score(b.states), totalItems, passingScore))
    else None
  }
}
