/** The values the menu screen works with: a menu item, the outcome of a
    submission with the alert it raises, the validation cascade of the
    "Add to Menu" button and the filter behind "Delete". */
module Menu {
  import opened Text

  datatype Option<T> = None | Some(value: T)

  /** One entry of the chef's menu. */
  datatype MenuItem = MenuItem(
    id: string,
    dishName: string,
    description: string,
    course: string,
    price: real)

  /** The three course buttons, in the order they are shown. */
  const Courses: seq<string> := ["Starters", "Mains", "Dessert"]

  /** What a press of "Add to Menu" ends in: one value per alert. */
  datatype Outcome = MissingDishName | MissingDescription | MissingCourse | InvalidPrice | Success

  datatype Alert = Alert(title: string, message: string)

  /** The alert raised for each outcome. */
  function AlertFor(o: Outcome): (a: Alert)
    ensures a.title == "Success" <==> o == Success
    ensures a.title == "Error" <==> o != Success
  {
    match o
    case MissingDishName => Alert("Error", "Please enter a dish name")
    case MissingDescription => Alert("Error", "Please enter a description")
    case MissingCourse => Alert("Error", "Please select a course")
    case InvalidPrice => Alert("Error", "Please enter a valid price")
    case Success => Alert("Success", "Menu item added!")
  }

  /** Different outcomes raise different alerts, so the alert tells the user
      which check stopped the submission. */
  lemma AlertForInjective(o1: Outcome, o2: Outcome)
    ensures AlertFor(o1) == AlertFor(o2) ==> o1 == o2
  {
  }

  /** A text field whose value trims to the empty string, which JavaScript
      treats as false. */
  predicate Blank(s: string)
  {
    Trim(s) == []
  }

  /** The price guard: the text is non-empty, parseFloat did not give NaN
      (None) and the number it gave is positive. */
  predicate PriceAccepted(price: string, parsed: Option<real>)
  {
    price != [] && parsed.Some? && parsed.value > 0.0
  }

  /** Every check of the form that the draft fails, in the order the handler
      runs the checks (not short-circuited). */
  function Failures(mealName: string, description: string, selectedCourse: string,
                    price: string, parsed: Option<real>): seq<Outcome>
  {
    (if Blank(mealName) then [MissingDishName] else [])
    + (if Blank(description) then [MissingDescription] else [])
    + (if selectedCourse == [] then [MissingCourse] else [])
    + (if PriceAccepted(price, parsed) then [] else [InvalidPrice])
  }

  /** The validation cascade of the "Add to Menu" button: the first check that
      fails decides the outcome, and the outcome is Success only when no
      check fails. `parsed` is parseFloat(price). */
  function Check(mealName: string, description: string, selectedCourse: string,
                 price: string, parsed: Option<real>): (o: Outcome)
    ensures var fs := Failures(mealName, description, selectedCourse, price, parsed);
      o == if fs == [] then Success else fs[0]
  {
    if Blank(mealName) then MissingDishName
    else if Blank(description) then MissingDescription
    else if selectedCourse == [] then MissingCourse
    else if !PriceAccepted(price, parsed) then InvalidPrice
    else Success
  }

  /** The checks short-circuit: once a check fails, the fields that only later
      checks look at do not change the outcome. */
  lemma CheckShortCircuits(mealName: string, description: string, selectedCourse: string,
                           price: string, parsed: Option<real>,
                           description': string, selectedCourse': string,
                           price': string, parsed': Option<real>)
    ensures Blank(mealName) ==>
      Check(mealName, description, selectedCourse, price, parsed) == MissingDishName ==
      Check(mealName, description', selectedCourse', price', parsed')
    ensures !Blank(mealName) && Blank(description) ==>
      Check(mealName, description, selectedCourse, price, parsed) == MissingDescription ==
      Check(mealName, description, selectedCourse', price', parsed')
    ensures !Blank(mealName) && !Blank(description) && selectedCourse == [] ==>
      Check(mealName, description, selectedCourse, price, parsed) == MissingCourse ==
      Check(mealName, description, selectedCourse, price', parsed')
  {
  }

  /** A dish name or description stored on the menu: non-empty, with no
      whitespace at either end. */
  predicate IsTrimmedText(s: string)
  {
    s != [] && !IsWhitespace(s[0]) && !IsWhitespace(s[|s| - 1])
  }

  /** What every entry of the menu satisfies when the course buttons are the
      only way to pick a course. */
  predicate ItemValid(item: MenuItem)
  {
    IsTrimmedText(item.dishName) && IsTrimmedText(item.description)
    && item.course in Courses && item.price > 0.0
  }

  /** Every entry of a menu is valid. */
  predicate AllValid(items: seq<MenuItem>)
  {
    forall i :: 0 <= i < |items| ==> ItemValid(items[i])
  }

  /** Adding a valid entry at the end keeps a menu valid. */
  lemma AllValidAppend(items: seq<MenuItem>, item: MenuItem)
    requires AllValid(items) && ItemValid(item)
    ensures AllValid(items + [item])
  {
  }

  /** Deleting keeps a menu valid. */
  lemma AllValidWithout(items: seq<MenuItem>, id: string)
    requires AllValid(items)
    ensures AllValid(Without(items, id))
  {
  }

  /** The item the handler builds from an accepted draft. */
  function NewItem(id: string, mealName: string, description: string,
                   selectedCourse: string, parsed: Option<real>): MenuItem
    requires parsed.Some?
  {
    MenuItem(id, Trim(mealName), Trim(description), selectedCourse, parsed.value)
  }

  /** A draft that passes every check, with a course taken from the buttons,
      becomes a valid menu entry: its dish name and description are non-empty
      and trimmed and its price is positive. */
  lemma {:induction false} AcceptedDraftGivesValidItem(
    id: string, mealName: string, description: string,
    selectedCourse: string, price: string, parsed: Option<real>)
    requires Check(mealName, description, selectedCourse, price, parsed) == Success
    requires selectedCourse in Courses
    ensures parsed.Some?
    ensures ItemValid(NewItem(id, mealName, description, selectedCourse, parsed))
  {
    assert !Blank(mealName) && !Blank(description) && PriceAccepted(price, parsed);
    TrimSpec(mealName);
    TrimSpec(description);
  }

  /** menuItems.filter(item => item.id !== id): the items whose id differs
      from id, in their original order. */
  function Without(items: seq<MenuItem>, id: string): (r: seq<MenuItem>)
    ensures |r| <= |items|
    ensures forall x :: x in r <==> x in items && x.id != id
    ensures |r| == |items| <==> forall x :: x in items ==> x.id != id
  {
    if items == [] then []
    else if items[0].id != id then [items[0]] + Without(items[1..], id)
    else Without(items[1..], id)
  }

  /** Deleting an id that no item carries changes nothing. */
  lemma {:induction false} WithoutAbsent(items: seq<MenuItem>, id: string)
    requires forall x :: x in items ==> x.id != id
    ensures Without(items, id) == items
  {
    if items != [] {
      WithoutAbsent(items[1..], id);
    }
  }

  /** Deleting the same id twice is deleting it once. */
  lemma {:induction false} WithoutIdempotent(items: seq<MenuItem>, id: string)
    ensures Without(Without(items, id), id) == Without(items, id)
  {
    WithoutAbsent(Without(items, id), id);
  }

  /** The filter keeps the order: it works piece by piece on a list split
      anywhere. */
  lemma {:induction false} WithoutConcat(a: seq<MenuItem>, b: seq<MenuItem>, id: string)
    ensures Without(a + b, id) == Without(a, id) + Without(b, id)
  {
    if a == [] {
      assert a + b == b;
    } else {
      assert (a + b)[1..] == a[1..] + b;
      WithoutConcat(a[1..], b, id);
    }
  }

  /** Deleting the item that was just added, when no earlier item shares its
      id, gives back the menu as it was before the add. */
  lemma {:induction false} DeleteUndoesAdd(items: seq<MenuItem>, item: MenuItem)
    requires forall x :: x in items ==> x.id != item.id
    ensures Without(items + [item], item.id) == items
  {
    WithoutConcat(items, [item], item.id);
    WithoutAbsent(items, item.id);
    assert Without([item], item.id) == [];
  }

  /** Deleting the given ids one after another. */
  function WithoutAll(items: seq<MenuItem>, ids: seq<string>): seq<MenuItem>
    decreases |ids|
  {
    if ids == [] then items else WithoutAll(Without(items, ids[0]), ids[1..])
  }

  /** The ids of the items, in menu order. */
  function Ids(items: seq<MenuItem>): (ids: seq<string>)
    ensures |ids| == |items|
    ensures forall i :: 0 <= i < |items| ==> ids[i] == items[i].id
  {
    if items == [] then [] else [items[0].id] + Ids(items[1..])
  }

  /** Pressing "Delete" on every item in turn empties the menu, so the "No
      menu items added yet." text shows again. */
  lemma DeleteEveryItemEmpties(items: seq<MenuItem>)
    ensures WithoutAll(items, Ids(items)) == []
  {
    DeletingCoveredIdsEmpties(items, Ids(items));
  }

  /** A list with no members is empty: the base case of
      DeletingCoveredIdsEmpties. */
  lemma NoMemberMeansEmpty(items: seq<MenuItem>)
    ensures (forall x :: x !in items) ==> items == []
  {
    if items != [] {
      assert items[0] in items;
    }
  }

  /** Deleting a list of ids empties a menu each of whose items carries one
      of them. */
  lemma {:induction false} DeletingCoveredIdsEmpties(items: seq<MenuItem>, ids: seq<string>)
    requires forall x :: x in items ==> x.id in ids
    ensures WithoutAll(items, ids) == []
    decreases |ids|
  {
    if ids == [] {
      NoMemberMeansEmpty(items);
    } else {
      var rest := Without(items, ids[0]);
      forall x | x in rest ensures x.id in ids[1..] {
        assert x.id in ids && x.id != ids[0];
      }
      DeletingCoveredIdsEmpties(rest, ids[1..]);
    }
  }
}
