/** The restaurant of the registration crawler (crawler/cafeteria_registration.py):
    edits go straight to the lunch and dinner lists, each edit refreshes the saved
    `temp_menu` copy of both lists, and an unknown meal time only prints a message.
    The file write inside `save_temp_menu` is left out. */
module CafeteriaRegistration {
  import opened Wrappers
  import opened Errors
  import opened PyValue
  import Cafeteria
  import Lists

  type Menus = Cafeteria.Menus

  /** `temp_menu`: the two lists, or `{}` after a clear. */
  datatype TempMenu = Saved(menus: Menus) | Cleared

  datatype Restaurant = Restaurant(name: string, menus: Menus, location: Value, tempMenu: TempMenu)

  /** The saved copy shows the current lists. */
  predicate Synced(r: Restaurant) {
    r.tempMenu == Saved(r.menus)
  }

  /** `Restaurant(name, lunch, dinner, location)`: `temp_menu` starts as the two lists. */
  function NewRestaurant(name: string, lunch: seq<string>, dinner: seq<string>, location: Value): (r: Restaurant)
    ensures Synced(r) && r.menus == Cafeteria.Menus(lunch, dinner)
  {
    Restaurant(name, Cafeteria.Menus(lunch, dinner), location, Saved(Cafeteria.Menus(lunch, dinner)))
  }

  /** `save_temp_menu` without the file write. */
  function Save(r: Restaurant): (s: Restaurant)
    ensures Synced(s) && s.menus == r.menus && s.name == r.name && s.location == r.location
  {
    r.(tempMenu := Saved(r.menus))
  }

  /** `add_menu`: TypeError for a non-str meal time; otherwise the menu is appended to
      the named meal's list unless already there (an unknown meal time changes no
      list), and the copy is saved. */
  function AddMenu(r: Restaurant, mealTime: Value, menu: string): (res: Result<Restaurant, Error>)
    ensures res.Success? <==> mealTime.VStr?
    ensures res.Failure? ==> res.error == TypeError
    ensures res.Success? ==> Synced(res.value) && res.value.name == r.name && res.value.location == r.location
    ensures res.Success? ==> match Cafeteria.MealOf(mealTime.s)
      case None => res.value.menus == r.menus
      case Some(m) =>
        res.value.menus == r.menus.With(m, if menu in r.menus.Of(m) then r.menus.Of(m) else r.menus.Of(m) + [menu])
  {
    if !mealTime.VStr? then Failure(TypeError)
    else match Cafeteria.MealOf(mealTime.s)
      case None => Success(Save(r))
      case Some(m) =>
        var xs := r.menus.Of(m);
        Success(Save(r.(menus := r.menus.With(m, if menu in xs then xs else xs + [menu]))))
  }

  /** `delete_menu`: TypeError for a non-str meal time; otherwise the menu is removed
      from the named meal's list when there (anything else only prints), and the copy is
      saved. */
  function DeleteMenu(r: Restaurant, mealTime: Value, menu: string): (res: Result<Restaurant, Error>)
    ensures res.Success? <==> mealTime.VStr?
    ensures res.Failure? ==> res.error == TypeError
    ensures res.Success? ==> Synced(res.value) && res.value.name == r.name && res.value.location == r.location
    ensures res.Success? ==> match Cafeteria.MealOf(mealTime.s)
      case None => res.value.menus == r.menus
      case Some(m) =>
        && (menu !in r.menus.Of(m) ==> res.value.menus == r.menus)
        && (menu in r.menus.Of(m) ==> res.value.menus == r.menus.With(m, Cafeteria.RemoveFirst(r.menus.Of(m), menu)))
  {
    if !mealTime.VStr? then Failure(TypeError)
    else match Cafeteria.MealOf(mealTime.s)
      case None => Success(Save(r))
      case Some(m) =>
        var xs := r.menus.Of(m);
        if menu in xs then Success(Save(r.(menus := r.menus.With(m, Cafeteria.RemoveFirst(xs, menu)))))
        else
          assert r.menus.With(m, xs) == r.menus;
          Success(Save(r))
  }

  /** `clear_menu`: both lists emptied and `temp_menu` set to `{}`. */
  function ClearMenu(r: Restaurant): (c: Restaurant)
    ensures c.menus == Cafeteria.Menus([], []) && c.tempMenu == Cleared
    ensures c.name == r.name && c.location == r.location
  {
    r.(menus := Cafeteria.Menus([], []), tempMenu := Cleared)
  }

  /** Adding the same menu twice is adding it once. */
  lemma AddIdempotent(r: Restaurant, mealTime: Value, menu: string)
    requires AddMenu(r, mealTime, menu).Success?
    ensures AddMenu(AddMenu(r, mealTime, menu).value, mealTime, menu) == AddMenu(r, mealTime, menu)
  {
    var once := AddMenu(r, mealTime, menu).value;
    match Cafeteria.MealOf(mealTime.s)
    case None =>
    case Some(m) =>
      assert menu in once.menus.Of(m);
      assert once.menus.With(m, once.menus.Of(m)) == once.menus;
  }

  /** Deleting a menu the add appended gives back the lists from before. */
  lemma DeleteUndoesAdd(r: Restaurant, mealTime: Value, menu: string)
    requires mealTime.VStr? && Cafeteria.MealOf(mealTime.s).Some? && menu !in r.menus.Of(Cafeteria.MealOf(mealTime.s).value)
    ensures DeleteMenu(AddMenu(r, mealTime, menu).value, mealTime, menu) == Success(Save(r))
  {
    var m := Cafeteria.MealOf(mealTime.s).value;
    Lists.RemoveAppended(r.menus.Of(m), menu);
    var added := AddMenu(r, mealTime, menu).value;
    assert added.menus.With(m, r.menus.Of(m)) == r.menus;
  }

  /** Neither edit ever lists a menu twice. */
  lemma {:induction false} EditsKeepNoDuplicates(r: Restaurant, mealTime: Value, menu: string)
    requires Cafeteria.NoDuplicates(r.menus.lunch) && Cafeteria.NoDuplicates(r.menus.dinner)
    ensures AddMenu(r, mealTime, menu).Success? ==>
      var s := AddMenu(r, mealTime, menu).value; Cafeteria.NoDuplicates(s.menus.lunch) && Cafeteria.NoDuplicates(s.menus.dinner)
    ensures DeleteMenu(r, mealTime, menu).Success? ==>
      var s := DeleteMenu(r, mealTime, menu).value; Cafeteria.NoDuplicates(s.menus.lunch) && Cafeteria.NoDuplicates(s.menus.dinner)
  {
    if mealTime.VStr? && Cafeteria.MealOf(mealTime.s).Some? {
      var m := Cafeteria.MealOf(mealTime.s).value;
      var xs := r.menus.Of(m);
      if menu !in xs {
        var ys := xs + [menu];
        forall i, j | 0 <= i < j < |ys| ensures ys[i] != ys[j] {
          if j == |xs| {
            assert ys[i] in xs;
          }
        }
      } else {
        RemovalKeepsNoDuplicates(xs, menu);
      }
    }
  }

  lemma RemovalKeepsNoDuplicates(xs: seq<string>, x: string)
    requires x in xs && Cafeteria.NoDuplicates(xs)
    ensures Cafeteria.NoDuplicates(Cafeteria.RemoveFirst(xs, x))
  {
    var i := Lists.IndexOf(xs, x);
    var ys := Cafeteria.RemoveFirst(xs, x);
    assert ys == xs[..i] + xs[i + 1..];
    forall a, b | 0 <= a < b < |ys| ensures ys[a] != ys[b] {
      var a' := if a < i then a else a + 1;
      var b' := if b < i then b else b + 1;
      assert ys[a] == xs[a'] && ys[b] == xs[b'];
    }
  }
}
