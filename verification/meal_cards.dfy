/** `make_meal_cards` (api_server/utils.py): one text card per restaurant and meal,
    titled with the restaurant's name and the meal, describing the menu one item per
    line, gathered into a lunch carousel and a dinner carousel. A restaurant whose list
    for a meal is empty adds no card to that meal's carousel. */
module MealCards {
  import opened Wrappers
  import opened PyValue
  import opened PyStrings
  import Cafeteria
  import Cards
  import Components

  type Restaurant = Cafeteria.Restaurant
  type Component = Components.Component

  /** The suffix of a card title: "(점심)" or "(저녁)". */
  function MealSuffix(m: Cafeteria.Meal): string {
    if m == Cafeteria.Lunch then "(점심)" else "(저녁)"
  }

  /** `TextCardComponent(title=f"{name}(점심)", description="\n".join(lunch))`, and the
      same for dinner. */
  function MealCard(r: Restaurant, m: Cafeteria.Meal): (c: Component)
    ensures c.CardComponent? && c.card.TextCardOf? && c.KindOf() == Components.TextCardKind
  {
    Components.CardComponent(Components.TextCardOf(
      Cards.TextCard(VStr(r.name + MealSuffix(m)), VStr(Join(r.menus.Of(m), "\n")), [])))
  }

  /** Whether a restaurant gets a card for a meal: `if restaurant.lunch:`. */
  predicate Serves(r: Restaurant, m: Cafeteria.Meal) {
    |r.menus.Of(m)| > 0
  }

  /** The cards of one meal for a list of restaurants, in the list's order, defined on
      the list's last element as the loop of `make_meal_cards` extends it. */
  function MealCards(rs: seq<Restaurant>, m: Cafeteria.Meal): (cs: seq<Component>)
    ensures |cs| <= |rs|
    ensures forall i | 0 <= i < |cs| :: cs[i].KindOf() == Components.TextCardKind
    decreases |rs|
  {
    if |rs| == 0 then []
    else
      var last := rs[|rs| - 1];
      MealCards(rs[..|rs| - 1], m) + (if Serves(last, m) then [MealCard(last, m)] else [])
  }

  /** The restaurants that serve a meal, in order. */
  function Serving(rs: seq<Restaurant>, m: Cafeteria.Meal): (s: seq<Restaurant>)
    ensures |s| <= |rs|
    ensures forall i | 0 <= i < |s| :: Serves(s[i], m) && s[i] in rs
    decreases |rs|
  {
    if |rs| == 0 then []
    else
      var last := rs[|rs| - 1];
      Serving(rs[..|rs| - 1], m) + (if Serves(last, m) then [last] else [])
  }

  /** `make_meal_cards(restaurants)`: both carousels start empty and every serving
      restaurant's card is added with `add_item`, which never refuses one, since every
      item is a text card. */
  method MakeMealCards(rs: seq<Restaurant>) returns (lunch: Component, dinner: Component)
    ensures lunch == Components.NewCarousel(MealCards(rs, Cafeteria.Lunch))
    ensures dinner == Components.NewCarousel(MealCards(rs, Cafeteria.Dinner))
  {
    lunch := Components.NewCarousel([]);
    dinner := Components.NewCarousel([]);
    for i := 0 to |rs|
      invariant lunch == Components.NewCarousel(MealCards(rs[..i], Cafeteria.Lunch))
      invariant dinner == Components.NewCarousel(MealCards(rs[..i], Cafeteria.Dinner))
    {
      assert rs[..i + 1][..i] == rs[..i];
      if Serves(rs[i], Cafeteria.Lunch) {
        var added := Components.AddCarouselItem(lunch, MealCard(rs[i], Cafeteria.Lunch));
        lunch := added.value;
      }
      if Serves(rs[i], Cafeteria.Dinner) {
        var added := Components.AddCarouselItem(dinner, MealCard(rs[i], Cafeteria.Dinner));
        dinner := added.value;
      }
    }
    assert rs[..|rs|] == rs;
  }

  /** The cards are exactly the serving restaurants' cards, one each, in order. */
  lemma {:induction false} CardsFollowServing(rs: seq<Restaurant>, m: Cafeteria.Meal)
    ensures |MealCards(rs, m)| == |Serving(rs, m)|
    ensures forall i | 0 <= i < |Serving(rs, m)| :: MealCards(rs, m)[i] == MealCard(Serving(rs, m)[i], m)
    decreases |rs|
  {
    if |rs| > 0 {
      CardsFollowServing(rs[..|rs| - 1], m);
    }
  }

  /** Every serving restaurant is among `Serving`, and each is listed as often as in
      the input. */
  lemma {:induction false} ServingComplete(rs: seq<Restaurant>, m: Cafeteria.Meal)
    ensures forall r | r in rs && Serves(r, m) :: r in Serving(rs, m)
    ensures forall r | Serves(r, m) :: multiset(Serving(rs, m))[r] == multiset(rs)[r]
    decreases |rs|
  {
    if |rs| > 0 {
      var init := rs[..|rs| - 1];
      var last := rs[|rs| - 1];
      ServingComplete(init, m);
      assert rs == init + [last];
      assert multiset(rs) == multiset(init) + multiset{last};
    }
  }

  /** A restaurant's card is titled "{name}(점심)" or "{name}(저녁)" and describes its
      menu one item per line; splitting the description at the line breaks gives back
      the menu when no item holds a line break. */
  lemma MealCardText(r: Restaurant, m: Cafeteria.Meal)
    requires Serves(r, m)
    requires forall i | 0 <= i < |r.menus.Of(m)| :: '\n' !in r.menus.Of(m)[i]
    ensures var t := MealCard(r, m).card.textCard;
      && t.title == VStr(r.name + MealSuffix(m))
      && t.description.VStr? && Split(t.description.s, '\n') == r.menus.Of(m)
      && |t.buttons| == 0
  {
    JoinSplitPieces(r.menus.Of(m), '\n');
  }

  /** Joining pieces free of the separator and splitting the result gives the pieces
      back. */
  lemma {:induction false} JoinSplitPieces(parts: seq<string>, sep: char)
    requires |parts| > 0
    requires forall i | 0 <= i < |parts| :: sep !in parts[i]
    ensures Split(Join(parts, [sep]), sep) == parts
    decreases |parts|
  {
    if |parts| == 1 {
      SplitWithoutSeparator(parts[0], sep);
    } else {
      JoinSplitPieces(parts[1..], sep);
      SplitAfterPiece(parts[0], Join(parts[1..], [sep]), sep);
      assert Join(parts, [sep]) == parts[0] + ([sep] + Join(parts[1..], [sep]));
      assert parts == [parts[0]] + parts[1..];
    }
  }

  /** A restaurant's card always validates and renders, as a dict holding the title and
      the description. */
  lemma MealCardRenders(r: Restaurant, m: Cafeteria.Meal)
    ensures Components.RenderCard(MealCard(r, m).card).Success?
    ensures var t := MealCard(r, m).card.textCard;
      var out := Components.RenderCard(MealCard(r, m).card).value;
      ("title", t.title) in out && ("description", t.description) in out && !HasKey(out, "buttons")
  {
    Cards.TextCardContents(MealCard(r, m).card.textCard);
  }

  /** A carousel with at least one card renders with type "textCard" and one rendered
      card per serving restaurant, in order. */
  lemma CarouselRendersAsTextCards(rs: seq<Restaurant>, m: Cafeteria.Meal)
    requires |MealCards(rs, m)| > 0
    ensures var c := Components.NewCarousel(MealCards(rs, m));
      && Components.Render(c).Success?
      && Components.Render(c).value[0] == ("type", VStr("textCard"))
      && |Components.Render(c).value[1].1.items| == |Serving(rs, m)|
  {
    var cs := MealCards(rs, m);
    var c := Components.NewCarousel(cs);
    CardsFollowServing(rs, m);
    forall i | 0 <= i < |cs| ensures Components.RenderCard(cs[i].card).Success? && Components.ValidateCard(cs[i].card).Success? {
      MealCardRenders(Serving(rs, m)[i], m);
    }
    Components.HomogeneousValidates(c);
  }

  /** With no restaurant serving a meal, that carousel is empty, which `is_empty`
      reports; with one serving, it is not. */
  lemma EmptyExactlyWithoutServing(rs: seq<Restaurant>, m: Cafeteria.Meal)
    ensures Components.IsEmpty(Components.NewCarousel(MealCards(rs, m))) == Success(forall r | r in rs :: !Serves(r, m))
  {
    CardsFollowServing(rs, m);
    ServingComplete(rs, m);
    if |Serving(rs, m)| > 0 {
      assert Serving(rs, m)[0] in rs;
    }
  }
}
