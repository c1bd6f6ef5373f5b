/** The App screen's state and its handlers: the four draft fields of the
    "Add New Menu Item" form, the menu itself and the flag that chooses what
    is drawn below the form, which is always shown: when false, the "View
    Menu" button; when true, the menu list with its Delete buttons. */
module App {
  import opened Text
  import opened Menu

  class MenuManager {
    var mealName: string
    var description: string
    var price: string
    var selectedCourse: string
    var menuItems: seq<MenuItem>
    var showMenuPage: bool

    /** What the screen keeps true: the selected course is empty or one of
        the buttons' courses, and every entry of the menu is valid. */
    ghost predicate Valid()
      reads this
    {
      (selectedCourse == [] || selectedCourse in Courses)
      && AllValid(menuItems)
    }

    /** The screen as it first appears: an empty form, an empty menu, and the
        menu list hidden with the "View Menu" button below the form. */
    constructor ()
      ensures mealName == [] && description == [] && price == [] && selectedCourse == []
      ensures menuItems == [] && !showMenuPage
      ensures Valid()
    {
      mealName, description, price, selectedCourse := [], [], [], [];
      menuItems := [];
      showMenuPage := false;
    }

    /** onChangeText of the dish name input: no validation while typing. */
    method SetMealName(s: string)
      modifies this
      ensures mealName == s
      ensures description == old(description) && price == old(price)
      ensures selectedCourse == old(selectedCourse)
      ensures menuItems == old(menuItems) && showMenuPage == old(showMenuPage)
      ensures old(Valid()) ==> Valid()
    {
      mealName := s;
    }

    /** onChangeText of the description input. */
    method SetDescription(s: string)
      modifies this
      ensures description == s
      ensures mealName == old(mealName) && price == old(price)
      ensures selectedCourse == old(selectedCourse)
      ensures menuItems == old(menuItems) && showMenuPage == old(showMenuPage)
      ensures old(Valid()) ==> Valid()
    {
      description := s;
    }

    /** onChangeText of the price input: the raw text is kept. */
    method SetPrice(s: string)
      modifies this
      ensures price == s
      ensures mealName == old(mealName) && description == old(description)
      ensures selectedCourse == old(selectedCourse)
      ensures menuItems == old(menuItems) && showMenuPage == old(showMenuPage)
      ensures old(Valid()) ==> Valid()
    {
      price := s;
    }

    /** onPress of the i-th course button. */
    method SelectCourse(i: nat)
      requires i < |Courses|
      modifies this
      ensures selectedCourse == Courses[i]
      ensures mealName == old(mealName) && description == old(description)
      ensures price == old(price)
      ensures menuItems == old(menuItems) && showMenuPage == old(showMenuPage)
      ensures old(Valid()) ==> Valid()
    {
      selectedCourse := Courses[i];
    }

    /** "View Menu": show the menu list below the form. */
    method ShowMenu()
      modifies this
      ensures showMenuPage
      ensures mealName == old(mealName) && description == old(description)
      ensures price == old(price) && selectedCourse == old(selectedCourse)
      ensures menuItems == old(menuItems)
      ensures old(Valid()) ==> Valid()
    {
      showMenuPage := true;
    }

    /** "Back": hide the menu list and show the "View Menu" button again. */
    method HideMenu()
      modifies this
      ensures !showMenuPage
      ensures mealName == old(mealName) && description == old(description)
      ensures price == old(price) && selectedCourse == old(selectedCourse)
      ensures menuItems == old(menuItems)
      ensures old(Valid()) ==> Valid()
    {
      showMenuPage := false;
    }

    /** "Add to Menu". The checks run in order and the first that fails ends
        the handler with its alert and no change of state. When all pass, the
        new item, made of the trimmed texts, the course and the parsed price,
        goes to the end of the menu and the form is cleared. `id` stands for
        Date.now().toString() and `parseFloat` for the global of that name,
        None standing for NaN. */
    method AddMenuItem(id: string, parseFloat: string -> Option<real>) returns (outcome: Outcome)
      modifies this
      ensures outcome == Check(old(mealName), old(description), old(selectedCourse),
                               old(price), old(parseFloat(price)))
      ensures outcome != Success ==>
        mealName == old(mealName) && description == old(description)
        && price == old(price) && selectedCourse == old(selectedCourse)
        && menuItems == old(menuItems)
      ensures outcome == Success ==>
        old(parseFloat(price)).Some?
        && menuItems == old(menuItems) + [NewItem(id, old(mealName), old(description),
                                                  old(selectedCourse), old(parseFloat(price)))]
        && mealName == [] && description == [] && price == [] && selectedCourse == []
      ensures showMenuPage == old(showMenuPage)
      ensures old(Valid()) ==> Valid()
    {
      if Trim(mealName) == [] {
        return MissingDishName;
      }
      if Trim(description) == [] {
        return MissingDescription;
      }
      if selectedCourse == [] {
        return MissingCourse;
      }
      var parsedPrice := parseFloat(price);
      if price == [] || parsedPrice.None? || parsedPrice.value <= 0.0 {
        return InvalidPrice;
      }

      assert Check(mealName, description, selectedCourse, price, parsedPrice) == Success;
      var newItem := MenuItem(id, Trim(mealName), Trim(description), selectedCourse, parsedPrice.value);
      if Valid() {
        AcceptedDraftGivesValidItem(id, mealName, description, selectedCourse, price, parsedPrice);
        AllValidAppend(menuItems, newItem);
      }

      // The five setters of the handler take effect together, as React
      // batches the state updates of one event handler.
      menuItems, mealName, description, price, selectedCourse :=
        menuItems + [newItem], [], [], [], [];

      outcome := Success;
    }

    /** "Delete" on an entry: every item with that id leaves the menu and the
        others keep their order. */
    method DeleteMenuItem(id: string)
      modifies this
      ensures menuItems == Without(old(menuItems), id)
      ensures mealName == old(mealName) && description == old(description)
      ensures price == old(price) && selectedCourse == old(selectedCourse)
      ensures showMenuPage == old(showMenuPage)
      ensures old(Valid()) ==> Valid()
    {
      if Valid() {
        AllValidWithout(menuItems, id);
      }
      menuItems := Without(menuItems, id);
    }
  }
}
