/** The item controller: an in-memory list of calorie items and a total
    field, with the operations getItems, addItem and logData. */
module ItemCtrl {
  import opened JsNumber

  /** One tracked item, as the Item constructor builds it. */
  datatype Item = Item(id: int, name: string, calories: Num)

  /** The state record the controller keeps. */
  datatype Data = Data(items: seq<Item>, total: int)

  /** The id addItem gives the next item: the last item's id plus one,
      or 0 for an empty list. */
  function NextId(items: seq<Item>): int {
    if |items| > 0 then items[|items| - 1].id + 1 else 0
  }

  /** The item addItem builds for the given arguments in the given state. */
  function NewItem(items: seq<Item>, name: string, calories: string): Item {
    Item(NextId(items), name, ParseInt(calories))
  }

  /** Every item's id is its position in the list: the shape of every list
      built by addItem from the empty one. */
  predicate IdsArePositions(items: seq<Item>) {
    forall i :: 0 <= i < |items| ==> items[i].id == i
  }

  predicate IdsDistinct(items: seq<Item>) {
    forall i, j :: 0 <= i < j < |items| ==> items[i].id != items[j].id
  }

  /** The list after calling addItem once per (name, calories) pair, in
      order, starting from items. */
  function AddAll(items: seq<Item>, inputs: seq<(string, string)>): seq<Item> {
    if inputs == [] then items
    else
      var before := AddAll(items, inputs[..|inputs| - 1]);
      var last := inputs[|inputs| - 1];
      before + [NewItem(before, last.0, last.1)]
  }

  // ---------------------------------------------------------------------
  // Properties of id assignment

  /** On a list whose ids are its positions, the next id is the length:
      fresh, and the extended list keeps the shape. */
  lemma NextIdIsFresh(items: seq<Item>, name: string, calories: string)
    requires IdsArePositions(items)
    ensures NextId(items) == |items|
    ensures forall i :: 0 <= i < |items| ==> items[i].id != NextId(items)
    ensures IdsArePositions(items + [NewItem(items, name, calories)])
  {
  }

  lemma PositionsAreDistinct(items: seq<Item>)
    requires IdsArePositions(items)
    ensures IdsDistinct(items)
  {
  }

  /** Replaying n addItem calls on a list whose ids are its positions
      appends one item per call, in call order, with ids |items|,
      |items|+1, ..., each name stored verbatim and each calories value
      parsed; earlier items are left as they were. */
  lemma {:induction false} AddAllAppends(items: seq<Item>, inputs: seq<(string, string)>)
    requires IdsArePositions(items)
    ensures var r := AddAll(items, inputs);
      |r| == |items| + |inputs| && r[..|items|] == items && IdsArePositions(r) &&
      forall k :: 0 <= k < |inputs| ==>
        r[|items| + k] == Item(|items| + k, inputs[k].0, ParseInt(inputs[k].1))
  {
    if inputs != [] {
      var init := inputs[..|inputs| - 1];
      AddAllAppends(items, init);
      var before := AddAll(items, init);
      NextIdIsFresh(before, inputs[|inputs| - 1].0, inputs[|inputs| - 1].1);
      var r := AddAll(items, inputs);
      assert r == before + [NewItem(before, inputs[|inputs| - 1].0, inputs[|inputs| - 1].1)];
      forall k | 0 <= k < |inputs|
        ensures r[|items| + k] == Item(|items| + k, inputs[k].0, ParseInt(inputs[k].1))
      {
        if k < |init| {
          assert inputs[k] == init[k];
        }
      }
      assert r[..|items|] == before[..|items|];
    }
  }

  /** Whatever the list holds, each item a replay appends has the id of
      the item before it plus one, and the first item of an empty list
      has id 0. */
  lemma {:induction false} AddAllIdsConsecutive(items: seq<Item>, inputs: seq<(string, string)>)
    ensures var r := AddAll(items, inputs);
      |r| == |items| + |inputs| && r[..|items|] == items &&
      (items == [] && inputs != [] ==> r[0].id == 0) &&
      forall j :: |items| <= j < |r| && j > 0 ==> r[j].id == r[j - 1].id + 1
  {
    if inputs != [] {
      var init := inputs[..|inputs| - 1];
      AddAllIdsConsecutive(items, init);
      var before := AddAll(items, init);
      var r := AddAll(items, inputs);
      assert r == before + [NewItem(before, inputs[|inputs| - 1].0, inputs[|inputs| - 1].1)];
      assert r[..|items|] == before[..|items|];
    }
  }

  /** Replaying one series of calls and then another is replaying the two
      in one go. */
  lemma {:induction false} AddAllConcat(items: seq<Item>, p: seq<(string, string)>, q: seq<(string, string)>)
    ensures AddAll(items, p + q) == AddAll(AddAll(items, p), q)
  {
    if q == [] {
      assert p + q == p;
    } else {
      assert (p + q)[..|p + q| - 1] == p + q[..|q| - 1];
      assert (p + q)[|p + q| - 1] == q[|q| - 1];
      AddAllConcat(items, p, q[..|q| - 1]);
    }
  }

  /** From an empty store, n addItem calls give the ids 0..n-1 in insertion
      order, so no two items share an id. */
  lemma AddAllFromEmpty(inputs: seq<(string, string)>)
    ensures var r := AddAll([], inputs);
      |r| == |inputs| && IdsDistinct(r) &&
      forall k :: 0 <= k < |inputs| ==> r[k].id == k
  {
    AddAllAppends([], inputs);
    PositionsAreDistinct(AddAll([], inputs));
  }

  /** The last-element rule is only as good as the list it reads: on a list
      whose ids are distinct but not in order, the next id can be one that
      is already taken. No operation of the controller builds such a list. */
  lemma LastElementRuleCanCollide()
    ensures exists items: seq<Item> ::
              IdsDistinct(items) && exists i :: 0 <= i < |items| && items[i].id == NextId(items)
  {
    var items := [Item(1, "Cookie", Int(400)), Item(0, "Eggs", Int(300))];
    assert IdsDistinct(items) && items[0].id == NextId(items);
  }

  // ---------------------------------------------------------------------
  // The controller's state and operations

  class Store {
    var items: seq<Item>
    var total: int

    /** The state every sequence of operations keeps: ids are positions and
        the total is still its initial 0, since no operation writes it. */
    ghost predicate Valid()
      reads this
    {
      IdsArePositions(items) && total == 0
    }

    /** The initial state record: no items, total 0. */
    constructor ()
      ensures items == [] && total == 0
      ensures Valid()
    {
      items := [];
      total := 0;
    }

    /** getItems: the current item list. */
    method GetItems() returns (r: seq<Item>)
      ensures r == items
    {
      r := items;
    }

    /** logData: the whole state record. */
    method LogData() returns (d: Data)
      ensures d.items == items && d.total == total
    {
      d := Data(items, total);
    }

    /** addItem: create an item with the next id, the name as given and the
        parseInt of calories, append it, and return it. The total is left
        alone. */
    method AddItem(name: string, calories: string) returns (item: Item)
      modifies this
      ensures item == NewItem(old(items), name, calories)
      ensures items == old(items) + [item]
      ensures total == old(total)
      ensures old(Valid()) ==> Valid() && item.id == |old(items)|
    {
      // The id rule, written out as the source does; it computes NextId(items).
      var id;
      if |items| > 0 {
        id := items[|items| - 1].id + 1;
      } else {
        id := 0;
      }
      var parsed := ParseInt(calories);
      item := Item(id, name, parsed);
      items := items + [item];
      if old(Valid()) {
        NextIdIsFresh(old(items), name, calories);
      }
    }
  }
}
