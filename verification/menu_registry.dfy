/** The in-memory menu registry of the crawler app (crawler/app.py `Menu`): restaurant
    locations and, per registered restaurant, a lunch and a dinner menu list. Every
    operation answers with a message string; the lookups answer with the list. */
module MenuRegistry {
  import opened Wrappers
  import opened PyStrings

  datatype Menu = Menu(cafeterias: map<string, string>, lunchMenu: map<string, seq<string>>,
                       dinnerMenu: map<string, seq<string>>)

  /** `Menu()`. */
  const Empty := Menu(map[], map[], map[])

  /** Only registered restaurants have menus. */
  predicate Registered(m: Menu) {
    && (forall r | r in m.lunchMenu :: r in m.cafeterias)
    && (forall r | r in m.dinnerMenu :: r in m.cafeterias)
  }

  function Uploaded(name: string, location: string): string { name + "이(가) " + location + "에 등록되었습니다." }
  function MenuUploaded(r: string): string { r + "의 메뉴가 등록되었습니다." }
  function NotRegistered(r: string): string { r + "은(는) 등록되지 않은 식당입니다." }
  function WasReset(r: string): string { r + "의 메뉴가 초기화되었습니다." }
  function NoLunch(r: string): string { r + "의 중식 메뉴가 등록되지 않았습니다." }
  function NoDinner(r: string): string { r + "의 석식 메뉴가 등록되지 않았습니다." }

  /** `upload_cafeteria`: the location is recorded, replacing any earlier one; the menus
      are kept. */
  function UploadCafeteria(m: Menu, name: string, location: string): (out: (Menu, string))
    ensures out.0.cafeterias == m.cafeterias[name := location]
    ensures out.0.lunchMenu == m.lunchMenu && out.0.dinnerMenu == m.dinnerMenu
    ensures out.1 == Uploaded(name, location)
    ensures Registered(m) ==> Registered(out.0)
  {
    (m.(cafeterias := m.cafeterias[name := location]), Uploaded(name, location))
  }

  /** `upload_menu`: for a registered restaurant both menus are stored as the pieces of
      their text between commas, untrimmed; an unregistered one changes nothing. */
  function UploadMenu(m: Menu, r: string, lunch: string, dinner: string): (out: (Menu, string))
    ensures r in m.cafeterias ==>
      out == (m.(lunchMenu := m.lunchMenu[r := Split(lunch, ',')], dinnerMenu := m.dinnerMenu[r := Split(dinner, ',')]),
              MenuUploaded(r))
    ensures r !in m.cafeterias ==> out == (m, NotRegistered(r))
    ensures Registered(m) ==> Registered(out.0)
  {
    if r in m.cafeterias then
      (m.(lunchMenu := m.lunchMenu[r := Split(lunch, ',')], dinnerMenu := m.dinnerMenu[r := Split(dinner, ',')]),
       MenuUploaded(r))
    else (m, NotRegistered(r))
  }

  /** The lists `reset_menu` leaves: the restaurant's entry gone from both maps. */
  function Without(m: Menu, r: string): (w: Menu)
    ensures r !in w.lunchMenu && r !in w.dinnerMenu && w.cafeterias == m.cafeterias
    ensures forall k | k != r :: (k in w.lunchMenu <==> k in m.lunchMenu) && (k in w.dinnerMenu <==> k in m.dinnerMenu)
    ensures forall k | k != r && k in w.lunchMenu :: w.lunchMenu[k] == m.lunchMenu[k]
    ensures forall k | k != r && k in w.dinnerMenu :: w.dinnerMenu[k] == m.dinnerMenu[k]
  {
    m.(lunchMenu := m.lunchMenu - {r}, dinnerMenu := m.dinnerMenu - {r})
  }

  /** `reset_menu` as written: the guard `restaurant in self.lunch_menu or
      self.dinner_menu` tests the dinner map for being non-empty, not for holding the
      restaurant. */
  function ResetMenuAsWritten(m: Menu, r: string): (out: (Menu, string))
    ensures (r in m.lunchMenu || |m.dinnerMenu| > 0) ==> out == (Without(m, r), WasReset(r))
    ensures !(r in m.lunchMenu || |m.dinnerMenu| > 0) ==> out == (m, NotRegistered(r))
  {
    if r in m.lunchMenu || |m.dinnerMenu| > 0 then (Without(m, r), WasReset(r)) else (m, NotRegistered(r))
  }

  /** A restaurant nobody registered is reported as reset as soon as any restaurant
      has a dinner menu. */
  lemma ResetReportsUnknownRestaurant(m: Menu, r: string, other: string)
    requires other in m.dinnerMenu && r !in m.lunchMenu && r !in m.dinnerMenu && r !in m.cafeterias
    ensures ResetMenuAsWritten(m, r).1 == WasReset(r)
    ensures ResetMenuAsWritten(m, r).0 == m
  {
    assert |m.dinnerMenu| > 0 by { assert other in m.dinnerMenu.Keys; }
    assert m.lunchMenu - {r} == m.lunchMenu && m.dinnerMenu - {r} == m.dinnerMenu;
  }

  /** `reset_menu` with the guard its comment states: the restaurant has a lunch or a
      dinner menu. */
  function ResetMenu(m: Menu, r: string): (out: (Menu, string))
    ensures out.1 == WasReset(r) <==> r in m.lunchMenu || r in m.dinnerMenu
    ensures out.0 == Without(m, r)
    ensures Registered(m) ==> Registered(out.0)
  {
    if r in m.lunchMenu || r in m.dinnerMenu then (Without(m, r), WasReset(r))
    else
      assert m.lunchMenu - {r} == m.lunchMenu && m.dinnerMenu - {r} == m.dinnerMenu;
      NotResetMessage(r);
      (m, NotRegistered(r))
  }

  /** The two answers differ. */
  lemma NotResetMessage(r: string)
    ensures NotRegistered(r) != WasReset(r)
  {
    var a := NotRegistered(r);
    var b := WasReset(r);
    assert a[|r|] == '은' && b[|r|] == '의';
  }

  /** Both versions leave the same maps; they differ only in the answer. */
  lemma ResetSameState(m: Menu, r: string)
    ensures ResetMenuAsWritten(m, r).0 == ResetMenu(m, r).0
  {
  }

  /** What a lookup answers: the stored list, or a message. */
  datatype Answer = Listed(items: seq<string>) | Message(text: string)

  /** `get_lunch_menu`. */
  function GetLunchMenu(m: Menu, r: string): (a: Answer)
    ensures r in m.lunchMenu ==> a == Listed(m.lunchMenu[r])
    ensures r !in m.lunchMenu ==> a == Message(NoLunch(r))
  {
    if r in m.lunchMenu then Listed(m.lunchMenu[r]) else Message(NoLunch(r))
  }

  /** `get_dinner_menu`. */
  function GetDinnerMenu(m: Menu, r: string): (a: Answer)
    ensures r in m.dinnerMenu ==> a == Listed(m.dinnerMenu[r])
    ensures r !in m.dinnerMenu ==> a == Message(NoDinner(r))
  {
    if r in m.dinnerMenu then Listed(m.dinnerMenu[r]) else Message(NoDinner(r))
  }

  /** A menu uploaded for a registered restaurant reads back as the pieces of the text,
      and joining them with commas gives back the text. */
  lemma UploadThenGet(m: Menu, r: string, lunch: string, dinner: string)
    requires r in m.cafeterias
    ensures var up := UploadMenu(m, r, lunch, dinner).0;
      && GetLunchMenu(up, r) == Listed(Split(lunch, ','))
      && GetDinnerMenu(up, r) == Listed(Split(dinner, ','))
      && Join(GetLunchMenu(up, r).items, ",") == lunch
      && Join(GetDinnerMenu(up, r).items, ",") == dinner
  {
    JoinSplit(lunch, ',');
    JoinSplit(dinner, ',');
  }

  /** After a reset both lookups answer with a message. */
  lemma ResetThenGet(m: Menu, r: string)
    ensures GetLunchMenu(ResetMenu(m, r).0, r) == Message(NoLunch(r))
    ensures GetDinnerMenu(ResetMenu(m, r).0, r) == Message(NoDinner(r))
  {
  }
}
