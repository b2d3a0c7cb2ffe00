/** The restaurant of the menu-viewing crawler, which exists twice with the same menu
    operations (crawler/cafeteria_view.py in both the sandol and the aws-sandol-api
    trees): edits go straight to the lunch and dinner lists, duplicates are allowed,
    and an unknown meal time or a missing menu only prints a message. */
module CafeteriaView {
  import opened Wrappers
  import opened Errors
  import opened PyValue
  import Cafeteria
  import Lists

  type Menus = Cafeteria.Menus

  datatype Restaurant = Restaurant(name: string, menus: Menus, location: Value)

  /** `meal_time.lower()`: only a str has `lower`. */
  function MealTime(mealTime: Value): (r: Result<Option<Cafeteria.Meal>, Error>)
    ensures r.Success? <==> mealTime.VStr?
    ensures r.Failure? ==> r.error == AttributeError
    ensures r.Success? ==> r.value == Cafeteria.MealOf(mealTime.s)
  {
    if mealTime.VStr? then Success(Cafeteria.MealOf(mealTime.s)) else Failure(AttributeError)
  }

  /** `add_menu`: the menu is appended to the named meal's list, even when already
      there; an unknown meal time changes nothing. */
  function AddMenu(r: Restaurant, mealTime: Value, menu: string): (res: Result<Restaurant, Error>)
    ensures res.Success? <==> mealTime.VStr?
    ensures res.Failure? ==> res.error == AttributeError
    ensures res.Success? ==> res.value.name == r.name && res.value.location == r.location
    ensures res.Success? ==> match Cafeteria.MealOf(mealTime.s)
      case None => res.value == r
      case Some(m) => res.value.menus == r.menus.With(m, r.menus.Of(m) + [menu])
  {
    var meal :- MealTime(mealTime);
    match meal
    case None => Success(r)
    case Some(m) => Success(r.(menus := r.menus.With(m, r.menus.Of(m) + [menu])))
  }

  /** `delete_menu`: the first equal menu is removed from the named meal's list; a menu
      not there, or an unknown meal time, changes nothing. */
  function DeleteMenu(r: Restaurant, mealTime: Value, menu: string): (res: Result<Restaurant, Error>)
    ensures res.Success? <==> mealTime.VStr?
    ensures res.Failure? ==> res.error == AttributeError
    ensures res.Success? ==> res.value.name == r.name && res.value.location == r.location
    ensures res.Success? ==> match Cafeteria.MealOf(mealTime.s)
      case None => res.value == r
      case Some(m) =>
        && (menu !in r.menus.Of(m) ==> res.value == r)
        && (menu in r.menus.Of(m) ==> res.value.menus == r.menus.With(m, Cafeteria.RemoveFirst(r.menus.Of(m), menu)))
  {
    var meal :- MealTime(mealTime);
    match meal
    case None => Success(r)
    case Some(m) =>
      if menu in r.menus.Of(m) then Success(r.(menus := r.menus.With(m, Cafeteria.RemoveFirst(r.menus.Of(m), menu))))
      else Success(r)
  }

  /** `get_temp_menus`: the two current lists. */
  function GetTempMenus(r: Restaurant): (m: Menus)
    ensures m.lunch == r.menus.lunch && m.dinner == r.menus.dinner
  {
    r.menus
  }

  /** `submit`: the lists as they were, and the restaurant with both emptied. */
  function Submit(r: Restaurant): (out: (Menus, Restaurant))
    ensures out.0 == GetTempMenus(r)
    ensures GetTempMenus(out.1) == Cafeteria.Menus([], [])
    ensures out.1.name == r.name && out.1.location == r.location
  {
    (r.menus, r.(menus := Cafeteria.Menus([], [])))
  }

  /** Adding and then deleting the same menu leaves the same menus, counted with
      multiplicity: when the menu was already listed, the earlier copy is the one
      removed, so the order may change. */
  lemma DeleteAfterAddKeepsMenus(r: Restaurant, mealTime: Value, menu: string)
    requires mealTime.VStr?
    ensures var added := AddMenu(r, mealTime, menu).value;
      var deleted := DeleteMenu(added, mealTime, menu).value;
      && multiset(deleted.menus.lunch) == multiset(r.menus.lunch)
      && multiset(deleted.menus.dinner) == multiset(r.menus.dinner)
  {
    match Cafeteria.MealOf(mealTime.s)
    case None =>
    case Some(m) =>
      var xs := r.menus.Of(m) + [menu];
      assert xs[|xs| - 1] == menu;
      assert multiset(xs) == multiset(r.menus.Of(m)) + multiset{menu};
  }

  /** A menu not yet listed is removed exactly: the lists come back unchanged. */
  lemma DeleteUndoesAdd(r: Restaurant, mealTime: Value, menu: string)
    requires mealTime.VStr? && Cafeteria.MealOf(mealTime.s).Some?
    requires menu !in r.menus.Of(Cafeteria.MealOf(mealTime.s).value)
    ensures DeleteMenu(AddMenu(r, mealTime, menu).value, mealTime, menu) == Success(r)
  {
    var m := Cafeteria.MealOf(mealTime.s).value;
    Lists.RemoveAppended(r.menus.Of(m), menu);
    var added := AddMenu(r, mealTime, menu).value;
    assert added.menus.With(m, r.menus.Of(m)) == r.menus;
  }

  /** Adding the same menu twice lists it twice. */
  lemma AddKeepsDuplicates(r: Restaurant, menu: string)
    ensures var once := AddMenu(r, VStr("lunch"), menu).value;
      AddMenu(once, VStr("lunch"), menu).value.menus.lunch == r.menus.lunch + [menu, menu]
  {
    assert Cafeteria.MealOf("lunch") == Some(Cafeteria.Lunch);
  }
}
