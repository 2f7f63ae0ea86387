/** The app controller's add-item handler: it reads the two text inputs
    and calls addItem only when neither is empty. */
module App {
  import opened JsNumber
  import opened ItemCtrl

  /** The two raw input field values, as the UI controller reads them. */
  datatype ItemInput = ItemInput(name: string, calories: string)

  datatype Option<T> = None | Some(value: T)

  /** The guard of itemAddSubmit: both fields hold some text. */
  predicate InputComplete(input: ItemInput) {
    input.name != "" && input.calories != ""
  }

  /** The item list after one add-item submit. */
  function Submit(items: seq<Item>, input: ItemInput): seq<Item> {
    if InputComplete(input) then items + [NewItem(items, input.name, input.calories)] else items
  }

  /** The item list after a series of add-item submits, in order. */
  function SubmitAll(items: seq<Item>, inputs: seq<ItemInput>): seq<Item>
    decreases |inputs|
  {
    if inputs == [] then items else SubmitAll(Submit(items, inputs[0]), inputs[1..])
  }

  /** The (name, calories) pairs of the complete inputs, in order: the
      addItem calls a series of submits makes. */
  function Accepted(inputs: seq<ItemInput>): seq<(string, string)> {
    if inputs == [] then []
    else
      var first := if InputComplete(inputs[0]) then [(inputs[0].name, inputs[0].calories)] else [];
      first + Accepted(inputs[1..])
  }

  predicate AllNamed(items: seq<Item>) {
    forall i :: 0 <= i < |items| ==> items[i].name != ""
  }

  // ---------------------------------------------------------------------
  // Properties

  /** A submit changes the list exactly when both inputs are non-empty;
      then it appends one item and keeps every earlier one in place. */
  lemma SubmitChangesIff(items: seq<Item>, input: ItemInput)
    ensures Submit(items, input) != items <==> (input.name != "" && input.calories != "")
    ensures input.name == "" || input.calories == "" ==> Submit(items, input) == items
    ensures input.name != "" && input.calories != "" ==>
      |Submit(items, input)| == |items| + 1 && Submit(items, input)[..|items|] == items
  {
    if InputComplete(input) {
      assert |Submit(items, input)| == |items| + 1;
    }
  }

  /** Submits never store an item without a name, and never reassign ids. */
  lemma SubmitKeepsInvariants(items: seq<Item>, input: ItemInput)
    ensures AllNamed(items) ==> AllNamed(Submit(items, input))
    ensures IdsArePositions(items) ==> IdsArePositions(Submit(items, input))
  {
    if InputComplete(input) && IdsArePositions(items) {
      NextIdIsFresh(items, input.name, input.calories);
    }
  }

  /** One accepted submit on a list whose ids are positions, whatever the
      calories text parses to (NaN included). */
  lemma AcceptedSubmit(items: seq<Item>, input: ItemInput)
    requires IdsArePositions(items) && InputComplete(input)
    ensures Submit(items, input) == items + [Item(|items|, input.name, ParseInt(input.calories))]
  {
    NextIdIsFresh(items, input.name, input.calories);
  }

  /** Three submits on an empty store, the middle one with an empty
      field: the first and last are stored with ids 0 and 1, the middle
      one is dropped. */
  lemma AcceptDropAccept(a: ItemInput, b: ItemInput, c: ItemInput)
    requires InputComplete(a) && !InputComplete(b) && InputComplete(c)
    ensures SubmitAll([], [a, b, c])
      == [Item(0, a.name, ParseInt(a.calories)), Item(1, c.name, ParseInt(c.calories))]
  {
    var one := [Item(0, a.name, ParseInt(a.calories))];
    var two := one + [Item(1, c.name, ParseInt(c.calories))];
    AcceptedSubmit([], a);
    assert Submit([], a) == one;
    AcceptedSubmit(one, c);
    assert [a, b, c][1..] == [b, c];
    assert [b, c][1..] == [c];
    assert [c][1..] == [];
    assert SubmitAll(one, [c]) == SubmitAll(two, []) == two;
    assert SubmitAll(one, [b, c]) == SubmitAll(one, [c]);
  }

  /** Any series of submits, from any list, stores exactly what calling
      addItem on the complete inputs alone, in order, would store. */
  lemma {:induction false} SubmitAllIsAddAll(items: seq<Item>, inputs: seq<ItemInput>)
    ensures SubmitAll(items, inputs) == AddAll(items, Accepted(inputs))
    decreases |inputs|
  {
    if inputs != [] {
      var i := inputs[0];
      var first := if InputComplete(i) then [(i.name, i.calories)] else [];
      SubmitAllIsAddAll(Submit(items, i), inputs[1..]);
      AddAllConcat(items, first, Accepted(inputs[1..]));
      if InputComplete(i) {
        assert first[..0] == [];
        assert AddAll(items, first) == Submit(items, i);
      } else {
        assert AddAll(items, first) == Submit(items, i);
      }
    }
  }

  /** A session on an empty store: "Cookie" with 400, a submit with an
      empty name (dropped), then "Eggs" with 300. */
  lemma CookieThenEggs()
    ensures SubmitAll([], [ItemInput("Cookie", "400"), ItemInput("", "300"), ItemInput("Eggs", "300")])
      == [Item(0, "Cookie", Int(400)), Item(1, "Eggs", Int(300))]
  {
    PlainNumeral();
    OtherPlainNumeral();
    AcceptDropAccept(ItemInput("Cookie", "400"), ItemInput("", "300"), ItemInput("Eggs", "300"));
  }

  // ---------------------------------------------------------------------
  // The handler

  /** itemAddSubmit: when both inputs are non-empty, add the item and
      return it (it is what the list view is given to show); otherwise
      leave the store alone and return None. */
  method ItemAddSubmit(store: Store, input: ItemInput) returns (shown: Option<Item>)
    modifies store
    ensures store.items == Submit(old(store.items), input)
    ensures shown == if InputComplete(input)
      then Some(NewItem(old(store.items), input.name, input.calories)) else None
    ensures store.total == old(store.total)
    ensures old(store.Valid()) ==> store.Valid()
  {
    if input.name != "" && input.calories != "" {
      var newItem := store.AddItem(input.name, input.calories);
      shown := Some(newItem);
    } else {
      shown := None;
    }
  }
}
