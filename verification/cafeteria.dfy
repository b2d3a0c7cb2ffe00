/** The restaurant record of the crawler (crawler/cafeteria.py): its confirmed lunch
    and dinner menus, and the temporary lists an owner edits before submitting. The
    file saves that follow each edit are left out: they write the temporary lists
    somewhere else and change nothing here. */
module Cafeteria {
  import opened Wrappers
  import opened Errors
  import opened PyValue
  import opened PyStrings
  import Lists

  // -------------------------------------------------------- meal times

  datatype Meal = Lunch | Dinner

  /** `meal_time.lower()` compared with "lunch" and "dinner". */
  function MealOf(mealTime: string): (m: Option<Meal>)
    ensures m == Some(Lunch) <==> Lower(mealTime) == "lunch"
    ensures m == Some(Dinner) <==> Lower(mealTime) == "dinner"
  {
    if Lower(mealTime) == "lunch" then Some(Lunch)
    else if Lower(mealTime) == "dinner" then Some(Dinner)
    else None
  }

  /** Lower-casing twice is lower-casing once. */
  lemma LowerIdempotent(s: string)
    ensures Lower(Lower(s)) == Lower(s)
  {
    assert forall i | 0 <= i < |s| :: LowerChar(LowerChar(s[i])) == LowerChar(s[i]);
  }

  /** The meal time is matched without regard to case. */
  lemma MealOfIgnoresCase(mealTime: string)
    ensures MealOf(Lower(mealTime)) == MealOf(mealTime)
  {
    LowerIdempotent(mealTime);
  }

  /** The two menus of a restaurant, as the `{"lunch": ..., "dinner": ...}` dicts the
      crawler classes return. */
  datatype Menus = Menus(lunch: seq<string>, dinner: seq<string>)
  {
    function Of(m: Meal): seq<string> {
      if m == Lunch then lunch else dinner
    }

    function With(m: Meal, xs: seq<string>): (r: Menus)
      ensures r.Of(m) == xs
      ensures forall other | other != m :: r.Of(other) == Of(other)
    {
      if m == Lunch then this.(lunch := xs) else this.(dinner := xs)
    }
  }

  /** No menu is listed twice. */
  predicate NoDuplicates(xs: seq<string>) {
    forall i, j | 0 <= i < j < |xs| :: xs[i] != xs[j]
  }

  // --------------------------------------------------------- restaurant

  /** Menus are lists of str, as every caller passes them. The opening times and the
      price that `rest_info` loads are not part of this model. */
  datatype Restaurant = Restaurant(
    name: string,
    menus: Menus,
    location: Value,
    registrationTime: int,
    temp: Menus)

  /** The restaurants `rest_info` has opening times and a price for. */
  const KnownNames: seq<string> := ["미가식당", "세미콘식당", "산돌식당", "TIP 가가식당", "E동 레스토랑"]

  /** The ValueError `rest_info` raises for a restaurant it has no entry for. */
  function UnknownRestaurant(name: string): string {
    "레스토랑 '" + name + "'에 대한 정보를 찾을 수 없습니다."
  }

  /** `Restaurant(name, lunch, dinner, location, registration)`: the temporary lists
      start empty, and the closing `rest_info()` call raises ValueError for a name it has
      no entry for. */
  function NewRestaurant(name: string, lunch: seq<string>, dinner: seq<string>, location: Value,
                         registration: int): (r: Result<Restaurant, Error>)
    ensures r.Success? <==> name in KnownNames
    ensures r.Failure? ==> r.error == ValueError(UnknownRestaurant(name))
    ensures r.Success? ==> r.value.menus == Menus(lunch, dinner) && r.value.temp == Menus([], [])
    ensures r.Success? ==> r.value.name == name && r.value.location == location && r.value.registrationTime == registration
  {
    if name in KnownNames then Success(Restaurant(name, Menus(lunch, dinner), location, registration, Menus([], [])))
    else Failure(ValueError(UnknownRestaurant(name)))
  }

  /** A new restaurant has nothing to submit for either meal, whatever its menus: its
      temporary lists start empty. */
  lemma NewRestaurantHasNoEdits(name: string, lunch: seq<string>, dinner: seq<string>, location: Value,
                                registration: int, menuType: string)
    requires name in KnownNames
    ensures SubmitUpdateMenu(NewRestaurant(name, lunch, dinner, location, registration).value, menuType).None?
  {
  }

  /** Only the five restaurants of the table can be built; any other name raises. */
  lemma OnlyKnownRestaurants()
    ensures forall i | 0 <= i < |KnownNames| :: NewRestaurant(KnownNames[i], [], [], VNone, 0).Success?
    ensures NewRestaurant("학생식당", [], [], VNone, 0) == Failure(ValueError(UnknownRestaurant("학생식당")))
  {
  }

  const NotAString := "meal_time should be a string 'lunch' or 'dinner'."
  const BadMealTime := "meal_time should be 'lunch' or 'dinner'."
  const AlreadyListed := "해당 메뉴는 이미 메뉴 목록에 존재합니다."
  const NotListed := "해당 메뉴는 등록되지 않은 메뉴입니다."

  /** The temporary list a meal time names: TypeError for a non-str, ValueError for a
      str that is neither meal. */
  function MealSlot(mealTime: Value): (r: Result<Meal, Error>)
    ensures !mealTime.VStr? ==> r == Failure(TypeError)
    ensures mealTime.VStr? ==> (r.Success? <==> MealOf(mealTime.s).Some?)
    ensures mealTime.VStr? && r.Success? ==> r.value == MealOf(mealTime.s).value
    ensures mealTime.VStr? && r.Failure? ==> r.error == ValueError(BadMealTime)
  {
    if !mealTime.VStr? then Failure(TypeError)
    else match MealOf(mealTime.s)
      case Some(m) => Success(m)
      case None => Failure(ValueError(BadMealTime))
  }

  // -------------------------------------------------- add_menu as written

  /** `add_menu` as written: the menu is appended to the temporary list when it is not
      there yet, and then the "already listed" ValueError is raised either way. */
  function AddMenuAsWritten(r: Restaurant, mealTime: Value, menu: string): (e: Effect<Restaurant>)
    ensures e.raised.Some?
    ensures MealSlot(mealTime).Failure? ==> e == Effect(r, Some(MealSlot(mealTime).error))
    ensures MealSlot(mealTime).Success? ==>
      var m := MealSlot(mealTime).value;
      && e.raised == Some(ValueError(AlreadyListed))
      && e.state == r.(temp := r.temp.With(m, if menu in r.temp.Of(m) then r.temp.Of(m) else r.temp.Of(m) + [menu]))
  {
    match MealSlot(mealTime)
    case Failure(err) => Effect(r, Some(err))
    case Success(m) =>
      var added := if menu in r.temp.Of(m) then r.temp.Of(m) else r.temp.Of(m) + [menu];
      Effect(r.(temp := r.temp.With(m, added)), Some(ValueError(AlreadyListed)))
  }

  /** A new menu is added and still reported as already listed. */
  lemma AddReportsDuplicateAfterAdding(r: Restaurant, menu: string)
    requires menu !in r.temp.lunch
    ensures AddMenuAsWritten(r, VStr("lunch"), menu)
         == Effect(r.(temp := r.temp.(lunch := r.temp.lunch + [menu])), Some(ValueError(AlreadyListed)))
  {
    assert Lower("lunch") == "lunch";
  }

  // ----------------------------------------------- delete_menu as written

  /** `delete_menu` as written: the menu is removed from the temporary list when it is
      there, and then the "not listed" ValueError is raised either way. */
  function DeleteMenuAsWritten(r: Restaurant, mealTime: Value, menu: string): (e: Effect<Restaurant>)
    ensures e.raised.Some?
    ensures MealSlot(mealTime).Failure? ==> e == Effect(r, Some(MealSlot(mealTime).error))
    ensures MealSlot(mealTime).Success? ==>
      var m := MealSlot(mealTime).value;
      && e.raised == Some(ValueError(NotListed))
      && |e.state.temp.Of(m)| == (if menu in r.temp.Of(m) then |r.temp.Of(m)| - 1 else |r.temp.Of(m)|)
      && e.state == r.(temp := r.temp.With(m, e.state.temp.Of(m)))
  {
    match MealSlot(mealTime)
    case Failure(err) => Effect(r, Some(err))
    case Success(m) =>
      var kept := if menu in r.temp.Of(m) then RemoveFirst(r.temp.Of(m), menu) else r.temp.Of(m);
      Effect(r.(temp := r.temp.With(m, kept)), Some(ValueError(NotListed)))
  }

  /** Removing a listed menu still reports it as not listed, so the handler answers
      with an error after a deletion that happened. */
  lemma DeleteReportsMissingAfterDeleting(r: Restaurant, menu: string)
    requires r.temp.lunch == [menu]
    ensures DeleteMenuAsWritten(r, VStr("lunch"), menu)
         == Effect(r.(temp := r.temp.(lunch := [])), Some(ValueError(NotListed)))
  {
    assert Lower("lunch") == "lunch";
    assert menu in r.temp.lunch;
  }

  // ---------------------------------------------------- corrected edits

  /** `add_menu` as its messages describe it: a new menu is appended and nothing is
      raised; a menu already listed is reported and nothing changes. */
  function AddMenu(r: Restaurant, mealTime: Value, menu: string): (e: Effect<Restaurant>)
    ensures MealSlot(mealTime).Failure? ==> e == Effect(r, Some(MealSlot(mealTime).error))
    ensures MealSlot(mealTime).Success? ==>
      var m := MealSlot(mealTime).value;
      && (e.raised.None? <==> menu !in r.temp.Of(m))
      && (e.raised.Some? ==> e == Effect(r, Some(ValueError(AlreadyListed))))
      && (e.raised.None? ==> e.state == r.(temp := r.temp.With(m, r.temp.Of(m) + [menu])))
    ensures e.state == AddMenuAsWritten(r, mealTime, menu).state
  {
    match MealSlot(mealTime)
    case Failure(err) => Effect(r, Some(err))
    case Success(m) =>
      if menu in r.temp.Of(m) then
        assert r.temp.With(m, r.temp.Of(m)) == r.temp;
        Effect(r, Some(ValueError(AlreadyListed)))
      else Effect(r.(temp := r.temp.With(m, r.temp.Of(m) + [menu])), None)
  }

  /** `delete_menu` as its messages describe it: a listed menu is removed and nothing is
      raised; a menu not listed is reported and nothing changes. */
  function DeleteMenu(r: Restaurant, mealTime: Value, menu: string): (e: Effect<Restaurant>)
    ensures MealSlot(mealTime).Failure? ==> e == Effect(r, Some(MealSlot(mealTime).error))
    ensures MealSlot(mealTime).Success? ==>
      var m := MealSlot(mealTime).value;
      && (e.raised.None? <==> menu in r.temp.Of(m))
      && (e.raised.Some? ==> e == Effect(r, Some(ValueError(NotListed))))
      && (e.raised.None? ==> e.state == r.(temp := r.temp.With(m, RemoveFirst(r.temp.Of(m), menu))))
    ensures e.state == DeleteMenuAsWritten(r, mealTime, menu).state
  {
    match MealSlot(mealTime)
    case Failure(err) => Effect(r, Some(err))
    case Success(m) =>
      if menu in r.temp.Of(m) then Effect(r.(temp := r.temp.With(m, RemoveFirst(r.temp.Of(m), menu))), None)
      else
        assert r.temp.With(m, r.temp.Of(m)) == r.temp;
        Effect(r, Some(ValueError(NotListed)))
  }

  /** The list operation both versions perform. */
  function RemoveFirst(xs: seq<string>, x: string): (r: seq<string>)
    requires x in xs
    ensures |r| == |xs| - 1
    ensures multiset(r) == multiset(xs) - multiset{x}
  {
    Lists.RemoveFirstMultiset(xs, x);
    Lists.RemoveFirst(xs, x)
  }

  /** Adding never lists a menu twice. */
  lemma {:induction false} AddKeepsNoDuplicates(r: Restaurant, mealTime: Value, menu: string)
    requires NoDuplicates(r.temp.lunch) && NoDuplicates(r.temp.dinner)
    ensures var s := AddMenu(r, mealTime, menu).state; NoDuplicates(s.temp.lunch) && NoDuplicates(s.temp.dinner)
  {
    var e := AddMenu(r, mealTime, menu);
    if MealSlot(mealTime).Success? && e.raised.None? {
      var m := MealSlot(mealTime).value;
      var xs := r.temp.Of(m) + [menu];
      assert e.state.temp.Of(m) == xs;
      forall i, j | 0 <= i < j < |xs| ensures xs[i] != xs[j] {
        if j == |xs| - 1 {
          assert xs[i] in r.temp.Of(m);
        }
      }
    }
  }

  /** Deleting a menu just added gives back the lists from before. */
  lemma DeleteUndoesAdd(r: Restaurant, mealTime: Value, menu: string)
    requires AddMenu(r, mealTime, menu).raised.None?
    ensures DeleteMenu(AddMenu(r, mealTime, menu).state, mealTime, menu) == Effect(r, None)
  {
    var m := MealSlot(mealTime).value;
    var added := AddMenu(r, mealTime, menu).state;
    Lists.RemoveAppended(r.temp.Of(m), menu);
    assert added.temp.With(m, r.temp.Of(m)) == r.temp;
  }

  /** `clear_menu`: the menus and the temporary lists are all emptied. */
  function ClearMenu(r: Restaurant): (c: Restaurant)
    ensures c.menus == Menus([], []) && c.temp == Menus([], [])
    ensures c.name == r.name && c.location == r.location && c.registrationTime == r.registrationTime
  {
    r.(menus := Menus([], []), temp := Menus([], []))
  }

  /** `submit_update_menu(menu_type)`: the temporary list of an exactly named meal, when
      it is not empty; None otherwise (no case folding here). */
  function SubmitUpdateMenu(r: Restaurant, menuType: string): (u: Option<seq<string>>)
    ensures u.Some? <==> (menuType == "lunch" && |r.temp.lunch| > 0) || (menuType == "dinner" && |r.temp.dinner| > 0)
    ensures menuType == "lunch" && u.Some? ==> u.value == r.temp.lunch
    ensures menuType == "dinner" && u.Some? ==> u.value == r.temp.dinner
  {
    if menuType == "lunch" && |r.temp.lunch| > 0 then Some(r.temp.lunch)
    else if menuType == "dinner" && |r.temp.dinner| > 0 then Some(r.temp.dinner)
    else None
  }

  /** After a menu is added, the meal has something to submit: the list it was added
      to. After a clear, neither meal has. */
  lemma SubmitAfterEdits(r: Restaurant, menu: string)
    ensures var e := AddMenu(r, VStr("lunch"), menu);
      e.raised.None? ==> SubmitUpdateMenu(e.state, "lunch") == Some(r.temp.lunch + [menu])
    ensures SubmitUpdateMenu(ClearMenu(r), "lunch").None? && SubmitUpdateMenu(ClearMenu(r), "dinner").None?
  {
    assert Lower("lunch") == "lunch";
  }
}
