# Calorie tracker item store, in Dafny

A model of the item controller of a small browser calorie tracker
(`ItemCtrl` in `app.js`) and of the input check in the app controller's
add-item handler (`App.itemAddSubmit`).

The item controller keeps one state record: a list of items and a `total`
field that starts at 0. It has three operations:

- `getItems` returns the list.
- `logData` returns the whole record.
- `addItem(name, calories)` builds an item and appends it to the list.
  The id follows the last-element rule: the last item's id plus one, or 0
  for an empty list. The name is kept as given. The calories text goes
  through JavaScript's `parseInt`.

The handler calls `addItem` only when both the name field and the
calories field are non-empty. Otherwise nothing happens.

Files:

- `js_number.dfy`, module `JsNumber`: the numbers `parseInt` returns
  (`Num = NaN | Int(int)`) and `ParseInt`. This is the one-argument
  `parseInt` of ECMA-262, section 19.2.5. It skips leading white space,
  reads one optional sign, and switches to radix 16 after `0x` or `0X`
  (radix 10 otherwise). Then it reads the longest run of digits, and
  gives NaN when there are none. `FormatInt` is a reference decimal
  formatter; `ParseInt` inverts it (`ParseIntFormatInt`).
- `item_ctrl.dfy`, module `ItemCtrl`: the `Item` and `Data` records, the
  id rule `NextId`, the class `Store`, and lemmas about ids over any
  series of `addItem` calls. `Store` has an `items: seq<Item>` field and
  a `total: int` field. `AddAll` is a pure replay function. Its lemmas
  say what such a series produces.
- `app.dfy`, module `App`: the guard `InputComplete`, the pure
  one-submit function `Submit`, the handler method `ItemAddSubmit`, and
  a short session worked through.

The definitions that the lemmas below are about:

- `JsNumber.ParseInt`, `ParseSigned` and `ParseUnsigned` model the call
  `parseInt(calories)` at app.js:36 (white space, then sign, then prefix
  and digits).
- `ItemCtrl.NextId` models the id rule at app.js:30-34.
- `ItemCtrl.NewItem` models building the item at app.js:36-38.
- `App.InputComplete` and `App.Submit` model the guard and the guarded
  call at app.js:117-118.

The single module-level store of the source is a `Store` object here.
Its hidden `data` record becomes the object's two fields.
`Store.Valid()` is what every reachable state satisfies: each item's id
equals its position, and `total` is 0. The constructor establishes it,
and `AddItem` and `ItemAddSubmit` preserve it.

`app.js` has no storage code: the storage controller is a placeholder
comment (app.js:1-2). Nothing writes `total` after its initial 0
(app.js:20). The model therefore has no sum and no storage, and it
proves that `total` stays as it was.

## Model

| member | source | states |
|---|---|---|
| `JsNumber.DigitValue` | app.js:36 | a character is a decimal digit exactly when its digit value is below 10; every value is at most 36 |
| `JsNumber.TrimStart` | app.js:36 | the result is a suffix of the input; everything dropped is white space; the result does not start with white space |
| `JsNumber.DigitPrefix` | app.js:36 | the result is the longest prefix of digits of the radix: a prefix, all digits, and followed by the end or a non-digit |
| `JsNumber.DigitPrefixOfDigitsThen` | app.js:36 | reading digits from a digit run followed by a non-digit returns exactly that run |
| `JsNumber.TrimStartSkipsWhiteSpace` | app.js:36 | trimming ignores any leading run of white space |
| `JsNumber.ParseIntSkipsWhiteSpace` | app.js:36 | leading white space never changes what `parseInt` returns |
| `JsNumber.ParseIntFormatInt` | app.js:36 | `parseInt` of an integer's decimal numeral followed by a non-digit suffix is that integer; a `0` followed by `x`/`X` is excluded, since it opens the hex prefix |
| `JsNumber.ParseIntFormatIntExact` | app.js:36 | `parseInt` inverts the decimal formatter for every integer, negatives included |
| `JsNumber.NegTrimmed` | app.js:36 | a leading minus negates the number read after it |
| `JsNumber.PlusTrimmed` | app.js:36 | a leading plus reads the rest unchanged |
| `JsNumber.UnsignedNoDigitIsNaN` | app.js:36 | where the number should start, no decimal digit gives NaN |
| `JsNumber.ParseIntPlusFormatNat` | app.js:36 | `+` before a natural number's numeral (and any non-digit suffix, with the `0x` exclusion) reads as that number |
| `JsNumber.NoLeadingDigitIsNaN` | app.js:36 | text that, after any leading white space, starts with no sign and no digit gives NaN, not 0 and not an error |
| `JsNumber.SignWithoutDigitsIsNaN` | app.js:36 | after any leading white space, a `+` or `-` with no decimal digit after it gives NaN |
| `JsNumber.HexPrefixWithoutDigitsIsNaN` | app.js:36 | after any leading white space and an optional `+` or `-`, `0x` or `0X` followed by no hex digit gives NaN |
| `JsNumber.PlainNumeral` | app.js:36 | `"400"` gives 400 |
| `JsNumber.OtherPlainNumeral` | app.js:36 | `"300"` gives 300 |
| `JsNumber.NumeralThenUnit` | app.js:36 | `"12abc"` gives 12: the leading digits win |
| `JsNumber.WordIsNaN` | app.js:36 | `"abc"` gives NaN |
| `JsNumber.PlusNumeral` | app.js:36 | `"+400"` gives 400 |
| `JsNumber.SignedWordIsNaN` | app.js:36 | `"-abc"` gives NaN |
| `ItemCtrl.NextIdIsFresh` | app.js:30-34 | when ids equal positions, the next id is the list length, no item has it, and the extended list keeps ids equal to positions |
| `ItemCtrl.AddAllAppends` | app.js:27-43 | n calls on a list whose ids equal positions append n items in call order. Their ids continue the positions, names are verbatim, calories are `parseInt` of the inputs, and earlier items are unchanged |
| `ItemCtrl.AddAllIdsConsecutive` | app.js:30-40 | on any list, each appended item's id is the previous item's id plus one, and the first item added to an empty list has id 0 |
| `ItemCtrl.AddAllFromEmpty` | app.js:30-40 | from an empty list, n calls give ids 0..n-1 in insertion order, pairwise distinct |
| `ItemCtrl.LastElementRuleCanCollide` | app.js:30-31 | on a list with distinct but unordered ids, the last-element rule can pick an id that is already taken |
| `ItemCtrl.Store.constructor` | app.js:14-21 | the initial record has no items and total 0, and satisfies the store invariant |
| `ItemCtrl.Store.GetItems` | app.js:24-26 | returns the current item list |
| `ItemCtrl.Store.LogData` | app.js:44-46 | returns the current items and total |
| `ItemCtrl.Store.AddItem` | app.js:27-43 | returns the item built from the next id, the verbatim name and `parseInt(calories)`. The new list is the old list plus that item; the returned item is its last element. `total` is unchanged and the invariant is kept, with id = old length |
| `App.SubmitChangesIff` | app.js:117-118 | a submit changes the list if and only if both inputs are non-empty. When either is empty the list is unchanged; otherwise one item is appended and earlier items keep their places |
| `App.SubmitKeepsInvariants` | app.js:117-118 | submits keep every stored name non-empty and keep ids equal to positions |
| `App.AcceptedSubmit` | app.js:117-118 | an accepted submit on a list whose ids equal positions appends one item: the next position as id, the name, and `parseInt` of the calories text, NaN included |
| `App.AcceptDropAccept` | app.js:114-124 | from an empty store, a complete input, then an incomplete one, then a complete one give exactly two items with ids 0 and 1. Their names and `parseInt` calories (NaN included) come from the first and third inputs |
| `App.SubmitAllIsAddAll` | app.js:114-124 | any series of submits gives the list that calling `addItem` on the complete inputs alone, in order, gives; incomplete inputs are dropped |
| `ItemCtrl.AddAllConcat` | app.js:27-43 | replaying two series of `addItem` calls one after the other is replaying their concatenation |
| `App.CookieThenEggs` | app.js:114-124 | from empty: "Cookie"/"400", then an empty name, then "Eggs"/"300" give `[{0, Cookie, 400}, {1, Eggs, 300}]` |
| `App.ItemAddSubmit` | app.js:114-124 | the new list is `Submit` of the old one. An item is returned (for display) exactly when both inputs are non-empty, and it is the one `addItem` built. `total` is unchanged and the store invariant is kept |

## Left out

- The UI controller (list rendering, reading and clearing input fields, inserting list elements): DOM work in the browser.
- Event wiring, `event.preventDefault`, `console.log` and `App.init`: browser plumbing. `App.init` only reads `getItems` and hands the list to the renderer.
- ItemAddSubmit: the calls to `UICtrl.addListItem` and `UICtrl.clearInput` are not modelled. The item the handler would display is returned instead.
- Storage and a calorie total: the source has only a placeholder comment for storage, and no code that computes the total.
- ParseInt: JavaScript numbers are unbounded integers here. Precision loss on long digit strings is not modelled, nor the overflow to `Infinity` (or `-Infinity`) on numerals above about 1.8e308, and `"-0"` gives 0 rather than -0.
- ParseInt: the explicit radix argument is not modelled; the source never passes one. Strings are sequences of Unicode scalar values rather than UTF-16 code units. This makes no difference to white space, signs or digits, which all lie in the Basic Multilingual Plane.
- Store.AddItem: takes its arguments as text. In the source `name` may be any JavaScript value and is stored as given, and `calories` is converted to a string by `parseInt`. The only caller passes the text of the input fields.
- Id arithmetic: ids are unbounded integers. Beyond 2^53 JavaScript's `+ 1` would lose precision.
- Aliasing: `getItems` and `logData` return the live internal array and record in the source. Here they return the current value. A caller mutating the result is not modelled.
- The implicit global `newItem` that `addItem` assigns (it is never declared) is not modelled. Nothing reads it.
