# A Taste With Christoffel — menu screen model

This project models the `App` screen of a React Native app with which a chef
builds a menu. The screen holds a draft of one menu item in four text fields:
dish name, description, price and selected course. It also holds the list of
menu items and a flag saying whether the menu list is shown below the form, which is
always drawn; while the flag is false a "View Menu" button shows instead. "Add to
Menu" runs four checks in a fixed order and either raises an error alert and
changes nothing, or appends a new item and clears the form. "Delete" filters
one id out of the list.

The model has three modules:

- `Text` (`text.dfy`): JavaScript's `String.prototype.trim`, over the exact set
  of characters ECMAScript counts as whitespace or line terminators, with
  lemmas that say what it cuts off and what it leaves.
- `Menu` (`menu.dfy`): the `MenuItem` record, the three courses, the outcome of
  a submission and the alert it raises, the validation cascade `Check` with an
  independent reference definition `Failures`, the item an accepted draft
  builds, and the filter `Without` behind delete, with its lemmas.
- `App` (`app.dfy`): the class `MenuManager`. Its fields are the screen's
  state variables. Its methods are the handlers, each updating those fields in
  place. `Valid()` is the invariant every handler keeps: the selected course
  is empty or one of the buttons' courses, and every stored item has a
  non-empty trimmed dish name and description, a listed course and a positive
  price.

Things the model takes as parameters:

- `parseFloat` is a parameter of `AddMenuItem` of type `string -> Option<real>`.
  `None` stands for NaN. The contract applies it to the price text as it was
  when the handler ran.
- `Date.now().toString()`, the new item's id, is the `id` parameter of
  `AddMenuItem`.
- The alert is not a side effect in the model. `AddMenuItem` returns the
  `Outcome`, and `AlertFor` gives the title and message shown for it.

The five state setters at the end of `addMenuItem` are modelled as one
simultaneous update. React batches the updates of one event handler, and no
code between the setters reads the state.

## Model

| member | source | states |
|---|---|---|
| `Text.Trim` | ST10439290_Dimakatso_Mohomi_Code/part-two/App.tsx:30-51 | `s.trim()`: TrimEnd of TrimStart; its meaning is stated by the four lemmas below |
| `Text.TrimStartSpec` | ST10439290_Dimakatso_Mohomi_Code/part-two/App.tsx:30-51 | trim's leading cut: the result is a suffix of the text that is empty or starts with a non-whitespace character, and every character cut off is whitespace |
| `Text.TrimEndSpec` | ST10439290_Dimakatso_Mohomi_Code/part-two/App.tsx:30-51 | trim's trailing cut: the result is a prefix that is empty or ends with a non-whitespace character, and every character cut off is whitespace |
| `Text.TrimSpec` | ST10439290_Dimakatso_Mohomi_Code/part-two/App.tsx:30-37 | `s.trim()` is no longer than `s`, neither starts nor ends with whitespace, and is empty (falsy) exactly when `s` is all whitespace, the empty string included |
| `Text.TrimCutsWhitespace` | ST10439290_Dimakatso_Mohomi_Code/part-two/App.tsx:50-51 | the trimmed dish name and description are the contiguous piece of the typed text left after cutting the whitespace on both sides |
| `Text.TrimmedIsFixed` | ST10439290_Dimakatso_Mohomi_Code/part-two/App.tsx:50-51 | a text with no whitespace at either end is unchanged by trim |
| `Text.TrimIdempotent` | ST10439290_Dimakatso_Mohomi_Code/part-two/App.tsx:50-51 | trimming a trimmed text changes nothing, so stored names are already in trimmed form |
| `Menu.MenuItem` | ST10439290_Dimakatso_Mohomi_Code/part-two/App.tsx:5-11 | a menu entry: id, dish name, description and course as text, and the price as a number |
| `Menu.Courses` | ST10439290_Dimakatso_Mohomi_Code/part-two/App.tsx:26 | the three courses "Starters", "Mains" and "Dessert", in the order their buttons are drawn |
| `Menu.Blank` | ST10439290_Dimakatso_Mohomi_Code/part-two/App.tsx:30-34 | the falsy test `!x.trim()` on the dish name and the description: the trimmed text is empty |
| `Menu.PriceAccepted` | ST10439290_Dimakatso_Mohomi_Code/part-two/App.tsx:43 | the price guard: the text is non-empty, parseFloat did not give NaN and the number is positive |
| `Menu.AlertFor` | ST10439290_Dimakatso_Mohomi_Code/part-two/App.tsx:30-63 | each outcome's alert: title "Success" exactly for the success outcome and "Error" for the four failures, with the handler's fixed messages |
| `Menu.AlertForInjective` | ST10439290_Dimakatso_Mohomi_Code/part-two/App.tsx:30-63 | different outcomes raise different alerts |
| `Menu.Check` | ST10439290_Dimakatso_Mohomi_Code/part-two/App.tsx:29-46 | the outcome is the first entry of the list of every failing check (blank dish name, blank description, no course, price text empty or NaN or not positive), and Success exactly when no check fails |
| `Menu.CheckShortCircuits` | ST10439290_Dimakatso_Mohomi_Code/part-two/App.tsx:30-41 | once the dish name, the description or the course check fails, the fields only later checks read cannot change the outcome |
| `Menu.NewItem` | ST10439290_Dimakatso_Mohomi_Code/part-two/App.tsx:48-54 | the object literal of a new entry: the given id, the trimmed dish name and description, the selected course and the parsed price |
| `Menu.AcceptedDraftGivesValidItem` | ST10439290_Dimakatso_Mohomi_Code/part-two/App.tsx:48-54 | when every check passes and the course came from a button, parseFloat gave a number and the item built has a non-empty trimmed dish name and description, a listed course and a positive price |
| `Menu.AllValidAppend` | ST10439290_Dimakatso_Mohomi_Code/part-two/App.tsx:56 | appending a valid item to a valid menu keeps every entry valid |
| `Menu.AllValidWithout` | ST10439290_Dimakatso_Mohomi_Code/part-two/App.tsx:68 | filtering a valid menu keeps every entry valid |
| `Menu.Without` | ST10439290_Dimakatso_Mohomi_Code/part-two/App.tsx:67-69 | the filter keeps exactly the items whose id differs from the argument, never grows the list, and keeps its length exactly when no item has that id |
| `Menu.WithoutAbsent` | ST10439290_Dimakatso_Mohomi_Code/part-two/App.tsx:68 | deleting an id no item carries leaves the menu unchanged |
| `Menu.WithoutIdempotent` | ST10439290_Dimakatso_Mohomi_Code/part-two/App.tsx:68 | deleting the same id twice is the same as deleting it once |
| `Menu.WithoutConcat` | ST10439290_Dimakatso_Mohomi_Code/part-two/App.tsx:68 | the filter preserves order: filtering a list split in two is filtering each part and joining them |
| `Menu.DeleteUndoesAdd` | ST10439290_Dimakatso_Mohomi_Code/part-two/App.tsx:56-68 | deleting the item just appended, when no earlier item shares its id, restores the menu as it was |
| `Menu.DeletingCoveredIdsEmpties` | ST10439290_Dimakatso_Mohomi_Code/part-two/App.tsx:67-69 | deleting, one after another, a list of ids that covers every item's id empties the menu |
| `Menu.DeleteEveryItemEmpties` | ST10439290_Dimakatso_Mohomi_Code/part-two/App.tsx:67-186 | pressing Delete (the button at lines 184-186, running the filter at 67-69) on every item in turn leaves an empty menu, the case in which lines 172-173 show "No menu items added yet." |
| `App.MenuManager.constructor` | ST10439290_Dimakatso_Mohomi_Code/part-two/App.tsx:15-24 | the screen starts with four empty draft fields, an empty menu and the flag false (menu list hidden, "View Menu" button shown below the form), and satisfies the invariant |
| `App.MenuManager.SetMealName` | ST10439290_Dimakatso_Mohomi_Code/part-two/App.tsx:91-97 | typing in the dish name field sets that field only, with no validation, and keeps the invariant |
| `App.MenuManager.SetDescription` | ST10439290_Dimakatso_Mohomi_Code/part-two/App.tsx:100-107 | typing in the description field sets that field only and keeps the invariant |
| `App.MenuManager.SetPrice` | ST10439290_Dimakatso_Mohomi_Code/part-two/App.tsx:133-140 | typing in the price field stores the raw text only and keeps the invariant |
| `App.MenuManager.SelectCourse` | ST10439290_Dimakatso_Mohomi_Code/part-two/App.tsx:111-118 | pressing the i-th course button selects that course from the list, changes nothing else and keeps the invariant |
| `App.MenuManager.ShowMenu` | ST10439290_Dimakatso_Mohomi_Code/part-two/App.tsx:154 | "View Menu" sets the flag, whatever it was, so the menu list shows below the form, and changes nothing else |
| `App.MenuManager.HideMenu` | ST10439290_Dimakatso_Mohomi_Code/part-two/App.tsx:166 | "Back" clears the flag, whatever it was, so the list is hidden and the "View Menu" button shows again, and changes nothing else |
| `App.MenuManager.AddMenuItem` | ST10439290_Dimakatso_Mohomi_Code/part-two/App.tsx:29-64 | the outcome is `Check` of the draft; on failure no field changes; on success the menu is the old menu plus exactly one item at the end, built from the trimmed texts, the course and the parsed price, and the four draft fields are empty; the view flag is untouched and the invariant kept |
| `App.MenuManager.DeleteMenuItem` | ST10439290_Dimakatso_Mohomi_Code/part-two/App.tsx:67-69 | the menu becomes `Without(old menu, id)`, nothing else changes, and the invariant is kept |

## Left out

- Rendering: the JSX tree, the `Pressable` and `TextInput` wiring beyond the handlers they call, the `StyleSheet`, the background image and the list view with `toFixed(2)` price formatting. These are presentation only.
- `Alert.alert`: a UI side effect, represented only by the returned `Outcome` and `AlertFor`.
- `parseFloat` and floating point: the parse is an arbitrary function given to `AddMenuItem`. Prefix parsing such as "12abc", `Infinity` and rounding are not modelled, and prices are mathematical reals.
- `Date.now()`: the id is a parameter. The clock does not make ids unique, because two adds in one millisecond get the same id. The model claims no uniqueness. `Without` states that a delete removes every item carrying the id. `DeleteUndoesAdd` assumes the new id is fresh.
- React's `useState` machinery: the state lives in the fields of one `MenuManager` object. The five setters of a successful add are one simultaneous update.
- Course selection: `SelectCourse` takes the index of the pressed button rather than an arbitrary string. `setSelectedCourse` is called only by the course buttons (App.tsx:118) and by the reset to `''` after a successful add (App.tsx:61), so the selected course is always empty or a listed course.
- Strings: the model's strings are sequences of Unicode scalar values, while JavaScript strings are sequences of UTF-16 code units. `trim()` behaves the same on well-formed text, since no whitespace character lies in the surrogate range, but text holding a lone surrogate cannot be represented.
