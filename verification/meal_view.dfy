/** The pure parts of the meal-view handler (api_server/meal.py `meal_view`) and of the
    menu validation handler: which restaurants are shown and in what order, which
    components and quick replies the answer holds, and when a typed menu is refused.
    The clock is a parameter: `standard` is yesterday 19:00 as an instant comparable
    with the registration times. */
module MealView {
  import opened Wrappers
  import Errors
  import opened PyValue
  import opened Each
  import Cafeteria
  import Components
  import Replies
  import Interaction
  import Envelope
  import PyStrings
  import MealCards
  import Lists

  type Restaurant = Cafeteria.Restaurant

  // --------------------------------------------------------------- filters

  /** `[x for x in rs if p(x)]`. */
  function Filter(rs: seq<Restaurant>, p: Restaurant -> bool): (out: seq<Restaurant>)
    ensures |out| <= |rs|
    ensures forall i | 0 <= i < |out| :: p(out[i])
  {
    if |rs| == 0 then [] else (if p(rs[0]) then [rs[0]] else []) + Filter(rs[1..], p)
  }

  lemma {:induction false} FilterAppend(a: seq<Restaurant>, b: seq<Restaurant>, p: Restaurant -> bool)
    ensures Filter(a + b, p) == Filter(a, p) + Filter(b, p)
  {
    if |a| > 0 {
      FilterAppend(a[1..], b, p);
      assert (a + b)[0] == a[0] && (a + b)[1..] == a[1..] + b;
    } else {
      assert a + b == b;
    }
  }

  /** A filter keeps every element it accepts, as often as it occurs. */
  lemma {:induction false} FilterCount(rs: seq<Restaurant>, p: Restaurant -> bool, r: Restaurant)
    ensures multiset(Filter(rs, p))[r] == if p(r) then multiset(rs)[r] else 0
  {
    if |rs| > 0 {
      FilterCount(rs[1..], p, r);
      assert rs == [rs[0]] + rs[1..];
      assert multiset(rs) == multiset{rs[0]} + multiset(rs[1..]);
    }
  }

  /** Registered exactly at `t`. */
  function At(t: int): Restaurant -> bool {
    (r: Restaurant) => r.registrationTime == t
  }

  /** Registered at or after the standard time: `not (r.registration_time < standard)`. */
  function NotBefore(standard: int): Restaurant -> bool {
    (r: Restaurant) => r.registrationTime >= standard
  }

  function Before(standard: int): Restaurant -> bool {
    (r: Restaurant) => r.registrationTime < standard
  }

  /** The name equals the requested cafeteria: `x.name == target_cafeteria`. */
  function Named(target: Value): Restaurant -> bool {
    (r: Restaurant) => VStr(r.name) == target
  }

  /** The name differs from the requested cafeteria: `rest.name != target_cafeteria`. */
  function NotNamed(target: Value): Restaurant -> bool {
    (r: Restaurant) => VStr(r.name) != target
  }

  // --------------------------------------------------------------- sorting

  predicate SortedByTime(rs: seq<Restaurant>) {
    forall i, j | 0 <= i < j < |rs| :: rs[i].registrationTime <= rs[j].registrationTime
  }

  /** Insert `x` into a sorted list after every restaurant registered no later than it. */
  function Insert(x: Restaurant, s: seq<Restaurant>): (r: seq<Restaurant>)
    ensures multiset(r) == multiset(s) + multiset{x}
    ensures |r| == |s| + 1
  {
    if |s| == 0 then [x]
    else if s[0].registrationTime <= x.registrationTime then
      assert s == [s[0]] + s[1..];
      [s[0]] + Insert(x, s[1..])
    else [x] + s
  }

  /** `list.sort(key=lambda x: x.registration_time)`: an insertion sort taking the
      restaurants in order, which keeps restaurants with equal times in their order. */
  function SortByTime(rs: seq<Restaurant>): (r: seq<Restaurant>)
    ensures multiset(r) == multiset(rs)
    decreases |rs|
  {
    if |rs| == 0 then []
    else
      var init := rs[..|rs| - 1];
      assert rs == init + [rs[|rs| - 1]];
      Insert(rs[|rs| - 1], SortByTime(init))
  }

  lemma {:induction false} InsertSorted(x: Restaurant, s: seq<Restaurant>)
    requires SortedByTime(s)
    ensures SortedByTime(Insert(x, s))
  {
    if |s| > 0 && s[0].registrationTime <= x.registrationTime {
      InsertSorted(x, s[1..]);
      var rest := Insert(x, s[1..]);
      forall k | 0 <= k < |rest| ensures s[0].registrationTime <= rest[k].registrationTime {
        assert rest[k] in multiset(rest);
        assert rest[k] == x || rest[k] in s[1..];
      }
    }
  }

  /** The sort orders by registration time. */
  lemma {:induction false} SortSorted(rs: seq<Restaurant>)
    ensures SortedByTime(SortByTime(rs))
    decreases |rs|
  {
    if |rs| > 0 {
      SortSorted(rs[..|rs| - 1]);
      InsertSorted(rs[|rs| - 1], SortByTime(rs[..|rs| - 1]));
    }
  }

  /** In a sorted list starting after `t`, nobody is registered at `t`. */
  lemma NoneAtEarlier(s: seq<Restaurant>, t: int)
    requires SortedByTime(s) && |s| > 0 && s[0].registrationTime > t
    ensures Filter(s, At(t)) == []
  {
  }

  lemma SortedTail(s: seq<Restaurant>)
    requires SortedByTime(s) && |s| > 0
    ensures SortedByTime(s[1..])
  {
    forall i, j | 0 <= i < j < |s[1..]| ensures s[1..][i].registrationTime <= s[1..][j].registrationTime {
      assert s[1..][i] == s[i + 1] && s[1..][j] == s[j + 1];
    }
  }

  /** Filtering a non-empty sequence: its head, if kept, then its filtered tail. */
  lemma FilterHead(s: seq<Restaurant>, p: Restaurant -> bool)
    requires |s| > 0
    ensures Filter(s, p) == (if p(s[0]) then [s[0]] else []) + Filter(s[1..], p)
  {
  }

  /** Inserting past the head of a list keeps that head first. */
  lemma InsertHead(x: Restaurant, s: seq<Restaurant>)
    requires |s| > 0 && s[0].registrationTime <= x.registrationTime
    ensures |Insert(x, s)| > 0 && Insert(x, s)[0] == s[0] && Insert(x, s)[1..] == Insert(x, s[1..])
  {
    assert Insert(x, s) == [s[0]] + Insert(x, s[1..]);
  }

  /** Inserting past the head keeps the head in front of what the tail's insertion
      gives. */
  lemma InsertPastHead(x: Restaurant, s: seq<Restaurant>, t: int)
    requires |s| > 0 && s[0].registrationTime <= x.registrationTime
    requires Filter(Insert(x, s[1..]), At(t)) == Filter(s[1..], At(t)) + Filter([x], At(t))
    ensures Filter(Insert(x, s), At(t)) == Filter(s, At(t)) + Filter([x], At(t))
  {
    InsertHead(x, s);
    FilterHead(Insert(x, s), At(t));
    FilterHead(s, At(t));
    Lists.PrependAssoc(if At(t)(s[0]) then [s[0]] else [], Filter(Insert(x, s[1..]), At(t)), Filter(s[1..], At(t)), Filter([x], At(t)));
  }

  /** Inserting before the head: nobody after `x` shares its time. */
  lemma InsertBeforeHead(x: Restaurant, s: seq<Restaurant>, t: int)
    requires SortedByTime(s) && |s| > 0 && x.registrationTime < s[0].registrationTime
    ensures Filter(Insert(x, s), At(t)) == Filter(s, At(t)) + Filter([x], At(t))
  {
    assert Insert(x, s) == [x] + s;
    FilterAppend([x], s, At(t));
    if x.registrationTime == t {
      NoneAtEarlier(s, t);
    } else {
      assert Filter([x], At(t)) == [];
    }
  }

  /** Inserting keeps the restaurants of every time in their order, the inserted one
      last among its equals. */
  lemma {:induction false} InsertStable(x: Restaurant, s: seq<Restaurant>, t: int)
    requires SortedByTime(s)
    ensures Filter(Insert(x, s), At(t)) == Filter(s, At(t)) + Filter([x], At(t))
  {
    if |s| == 0 {
    } else if s[0].registrationTime <= x.registrationTime {
      SortedTail(s);
      InsertStable(x, s[1..], t);
      InsertPastHead(x, s, t);
    } else {
      InsertBeforeHead(x, s, t);
    }
  }

  /** The sort is stable: the restaurants registered at any one time keep their order. */
  lemma {:induction false} SortStable(rs: seq<Restaurant>, t: int)
    ensures Filter(SortByTime(rs), At(t)) == Filter(rs, At(t))
    decreases |rs|
  {
    if |rs| > 0 {
      var init := rs[..|rs| - 1];
      SortStable(init, t);
      SortSorted(init);
      InsertStable(rs[|rs| - 1], SortByTime(init), t);
      assert rs == init + [rs[|rs| - 1]];
      FilterAppend(init, [rs[|rs| - 1]], At(t));
    }
  }

  // -------------------------------------------------------------- ordering

  /** Restaurants registered since the standard time first, then the others, each
      group in order of registration. */
  function Order(rs: seq<Restaurant>, standard: int): (o: seq<Restaurant>)
    ensures multiset(o) == multiset(rs)
  {
    var after := Filter(rs, NotBefore(standard));
    var before := Filter(rs, Before(standard));
    assert multiset(after) + multiset(before) == multiset(rs) by {
      forall r ensures (multiset(after) + multiset(before))[r] == multiset(rs)[r] {
        FilterCount(rs, NotBefore(standard), r);
        FilterCount(rs, Before(standard), r);
      }
    }
    SortByTime(after) + SortByTime(before)
  }

  /** The restaurants of one time all fall on the same side of the standard time. */
  lemma {:induction false} OneSide(rs: seq<Restaurant>, standard: int, t: int)
    ensures Filter(Filter(rs, NotBefore(standard)), At(t)) == if t >= standard then Filter(rs, At(t)) else []
    ensures Filter(Filter(rs, Before(standard)), At(t)) == if t < standard then Filter(rs, At(t)) else []
  {
    if |rs| > 0 {
      OneSide(rs[1..], standard, t);
      var head := [rs[0]];
      FilterAppend(Filter(head, NotBefore(standard)), Filter(rs[1..], NotBefore(standard)), At(t));
      FilterAppend(Filter(head, Before(standard)), Filter(rs[1..], Before(standard)), At(t));
    }
  }

  /** `meal_view`'s order: a permutation of the restaurants in which everyone registered
      since the standard time comes before everyone else, each part sorted by time. */
  lemma OrderParts(rs: seq<Restaurant>, standard: int)
    ensures var o := Order(rs, standard);
      var k := |Filter(rs, NotBefore(standard))|;
      && multiset(o) == multiset(rs)
      && k <= |o|
      && (forall i | 0 <= i < k :: o[i].registrationTime >= standard)
      && (forall i | k <= i < |o| :: o[i].registrationTime < standard)
      && SortedByTime(o[..k]) && SortedByTime(o[k..])
  {
    var after := Filter(rs, NotBefore(standard));
    var before := Filter(rs, Before(standard));
    var sa := SortByTime(after);
    var sb := SortByTime(before);
    var k := |after|;
    assert Order(rs, standard) == sa + sb;
    SortKeeps(after, NotBefore(standard));
    SortKeeps(before, Before(standard));
    SortSorted(after);
    SortSorted(before);
    Halves(sa, sb, k, standard);
  }

  /** Sorting keeps a property every element has. */
  lemma SortKeeps(xs: seq<Restaurant>, p: Restaurant -> bool)
    requires forall i | 0 <= i < |xs| :: p(xs[i])
    ensures |SortByTime(xs)| == |xs|
    ensures forall i | 0 <= i < |SortByTime(xs)| :: p(SortByTime(xs)[i])
  {
    var ys := SortByTime(xs);
    assert |ys| == |xs| by { assert |multiset(ys)| == |multiset(xs)|; }
    forall i | 0 <= i < |ys| ensures p(ys[i]) {
      assert ys[i] in multiset(xs);
    }
  }

  lemma Halves(sa: seq<Restaurant>, sb: seq<Restaurant>, k: nat, standard: int)
    requires |sa| == k && SortedByTime(sa) && SortedByTime(sb)
    requires forall i | 0 <= i < |sa| :: NotBefore(standard)(sa[i])
    requires forall i | 0 <= i < |sb| :: Before(standard)(sb[i])
    ensures var o := sa + sb;
      && (forall i | 0 <= i < k :: o[i].registrationTime >= standard)
      && (forall i | k <= i < |o| :: o[i].registrationTime < standard)
      && SortedByTime(o[..k]) && SortedByTime(o[k..])
  {
    var o := sa + sb;
    assert o[..k] == sa && o[k..] == sb;
  }

  /** Restaurants registered at the same time keep their order in `meal_view`'s order. */
  lemma OrderStable(rs: seq<Restaurant>, standard: int, t: int)
    ensures Filter(Order(rs, standard), At(t)) == Filter(rs, At(t))
  {
    var after := Filter(rs, NotBefore(standard));
    var before := Filter(rs, Before(standard));
    FilterAppend(SortByTime(after), SortByTime(before), At(t));
    SortStable(after, t);
    SortStable(before, t);
    OneSide(rs, standard, t);
    if t >= standard {
      assert Filter(rs, At(t)) + [] == Filter(rs, At(t));
    }
  }

  // ------------------------------------------------------------ the answer

  const NoMeals := "식단 정보가 없습니다."
  const ShowAll := "모두 보기"
  const MealsCommand := "학식"

  /** `if target_cafeteria:` keep only the restaurant asked for; otherwise all. */
  function Shown(cafeterias: seq<Restaurant>, target: Value): (rs: seq<Restaurant>)
    ensures Truthy(target) ==> forall i | 0 <= i < |rs| :: VStr(rs[i].name) == target
  {
    if Truthy(target) then Filter(cafeterias, Named(target)) else cafeterias
  }

  /** `add_quick_reply(label=label, action="message", message_text=text)`. */
  function MessageReply(labelText: string, text: string): Replies.QuickReply {
    Replies.QuickReply(VStr(labelText), Some(Interaction.Message), VStr(text), VNone, VNone)
  }

  /** One quick reply per other cafeteria, in order: its name, saying "학식 {name}". */
  function Others(cafeterias: seq<Restaurant>, target: Value): (qs: seq<Replies.QuickReply>)
    ensures |qs| <= |cafeterias|
  {
    if |cafeterias| == 0 then []
    else
      var r := cafeterias[0];
      (if VStr(r.name) != target then [MessageReply(r.name, MealsCommand + " " + r.name)] else [])
      + Others(cafeterias[1..], target)
  }

  /** The quick replies: "모두 보기" when a cafeteria was asked for, then the others. */
  function QuickReplies(cafeterias: seq<Restaurant>, target: Value): (qs: seq<Replies.QuickReply>)
    ensures |qs| > 0 && qs[0] == MessageReply(ShowAll, MealsCommand) <==> Truthy(target)
  {
    OthersNeverShowAll(cafeterias, target);
    (if Truthy(target) then [MessageReply(ShowAll, MealsCommand)] else []) + Others(cafeterias, target)
  }

  /** No other cafeteria's reply says "학식" alone. */
  lemma {:induction false} OthersNeverShowAll(cafeterias: seq<Restaurant>, target: Value)
    ensures forall i | 0 <= i < |Others(cafeterias, target)| :: Others(cafeterias, target)[i].messageText != VStr(MealsCommand)
  {
    if |cafeterias| > 0 {
      OthersNeverShowAll(cafeterias[1..], target);
      var r := cafeterias[0];
      assert |MealsCommand + " " + r.name| > |MealsCommand|;
    }
  }

  /** The other cafeterias' replies are exactly those of the cafeterias not named as the
      target, one each, in order. */
  lemma {:induction false} OthersAreTheRest(cafeterias: seq<Restaurant>, target: Value)
    ensures var rest := Filter(cafeterias, NotNamed(target));
      && |Others(cafeterias, target)| == |rest|
      && forall i | 0 <= i < |rest| :: Others(cafeterias, target)[i] == MessageReply(rest[i].name, MealsCommand + " " + rest[i].name)
  {
    if |cafeterias| > 0 {
      OthersAreTheRest(cafeterias[1..], target);
    }
  }

  /** The components: each carousel that has a card, or else the "no meals" text. */
  function ViewComponents(lunch: Components.Component, dinner: Components.Component): (cs: seq<Components.Component>)
    requires lunch.CarouselComponent? && dinner.CarouselComponent?
    ensures 1 <= |cs| <= 2
    ensures cs == [Components.SimpleTextComponent(VStr(NoMeals))] <==> |lunch.items| == 0 && |dinner.items| == 0
  {
    var cs := (if |lunch.items| > 0 then [lunch] else []) + (if |dinner.items| > 0 then [dinner] else []);
    assert |cs| > 0 ==> cs[0].CarouselComponent?;
    if |cs| == 0 then [Components.SimpleTextComponent(VStr(NoMeals))] else cs
  }

  function Refs<T>(xs: seq<T>): (refs: seq<Ref<T>>)
    ensures |refs| == |xs| && forall i | 0 <= i < |xs| :: refs[i] == Inst(xs[i])
  {
    seq(|xs|, i requires 0 <= i < |xs| => Inst(xs[i]))
  }

  /** `meal_view`'s answer for the known cafeterias, the requested one (the detail
      parameter's value, None when absent) and the standard time. */
  function MealViewResponse(cafeterias: seq<Restaurant>, target: Value, standard: int): (r: Envelope.Response)
    ensures |r.contexts| == 0 && r.data.VNone?
  {
    var rs := Order(Shown(cafeterias, target), standard);
    Envelope.Response(Refs(MealComponents(rs)), Refs(QuickReplies(cafeterias, target)), [], VNone)
  }

  /** The components for the ordered restaurants: `make_meal_cards`' two carousels,
      kept when they have cards. */
  function MealComponents(rs: seq<Restaurant>): (cs: seq<Components.Component>)
    ensures 1 <= |cs| <= 2
  {
    ViewComponents(Components.NewCarousel(MealCards.MealCards(rs, Cafeteria.Lunch)),
                   Components.NewCarousel(MealCards.MealCards(rs, Cafeteria.Dinner)))
  }

  /** The answer shows the "no meals" text exactly when none of the shown restaurants
      has a lunch or a dinner menu. */
  lemma NoMealsExactlyWhenEmpty(cafeterias: seq<Restaurant>, target: Value, standard: int)
    ensures MealViewResponse(cafeterias, target, standard).components
         == [Inst(Components.SimpleTextComponent(VStr(NoMeals)))]
        <==> forall r | r in Shown(cafeterias, target) ::
               !MealCards.Serves(r, Cafeteria.Lunch) && !MealCards.Serves(r, Cafeteria.Dinner)
  {
    var shown := Shown(cafeterias, target);
    var rs := Order(shown, standard);
    SameMembers(shown, standard);
    var lunch := Components.NewCarousel(MealCards.MealCards(rs, Cafeteria.Lunch));
    var dinner := Components.NewCarousel(MealCards.MealCards(rs, Cafeteria.Dinner));
    MealCards.EmptyExactlyWithoutServing(rs, Cafeteria.Lunch);
    MealCards.EmptyExactlyWithoutServing(rs, Cafeteria.Dinner);
    assert |lunch.items| == 0 <==> forall r | r in rs :: !MealCards.Serves(r, Cafeteria.Lunch);
    assert |dinner.items| == 0 <==> forall r | r in rs :: !MealCards.Serves(r, Cafeteria.Dinner);
    NoMealsComponent(lunch, dinner);
  }

  /** The order lists the same restaurants. */
  lemma SameMembers(rs: seq<Restaurant>, standard: int)
    ensures forall r :: r in Order(rs, standard) <==> r in rs
  {
    forall r ensures r in Order(rs, standard) <==> r in rs {
      assert r in Order(rs, standard) <==> r in multiset(Order(rs, standard));
    }
  }

  lemma NoMealsComponent(lunch: Components.Component, dinner: Components.Component)
    requires lunch.CarouselComponent? && dinner.CarouselComponent?
    ensures Refs(ViewComponents(lunch, dinner)) == [Inst(Components.SimpleTextComponent(VStr(NoMeals)))]
        <==> |lunch.items| == 0 && |dinner.items| == 0
  {
    var cs := ViewComponents(lunch, dinner);
    if Refs(cs) == [Inst(Components.SimpleTextComponent(VStr(NoMeals)))] {
      assert cs[0] == Components.SimpleTextComponent(VStr(NoMeals));
    }
  }

  /** There is one quick reply per cafeteria not asked for, plus "모두 보기" when one was
      asked for; no reply is labelled with the requested name. */
  lemma QuickReplyCount(cafeterias: seq<Restaurant>, target: Value)
    ensures |QuickReplies(cafeterias, target)|
         == (if Truthy(target) then 1 else 0) + |Filter(cafeterias, NotNamed(target))|
    ensures forall i | (if Truthy(target) then 1 else 0) <= i < |QuickReplies(cafeterias, target)| ::
      QuickReplies(cafeterias, target)[i].labelText != target
  {
    OthersAreTheRest(cafeterias, target);
    var rest := Filter(cafeterias, NotNamed(target));
    var skip := if Truthy(target) then 1 else 0;
    var qs := QuickReplies(cafeterias, target);
    forall i | skip <= i < |qs| ensures qs[i].labelText != target {
      assert qs[i] == Others(cafeterias, target)[i - skip];
      assert NotNamed(target)(rest[i - skip]);
    }
  }

  /** The answer renders exactly when it holds at most ten quick replies: its one or two
      components always render, and so does every quick reply, but `render` refuses an
      eleventh quick reply. With a cafeteria asked for, ten other cafeterias are enough
      to make the answer fail. */
  lemma ViewRendersUnlessTooManyReplies(cafeterias: seq<Restaurant>, target: Value, standard: int)
    ensures Envelope.Render(MealViewResponse(cafeterias, target, standard)).Success?
        <==> |QuickReplies(cafeterias, target)| <= Envelope.MaxQuickReplies
  {
    var r := MealViewResponse(cafeterias, target, standard);
    var rs := Order(Shown(cafeterias, target), standard);
    ViewComponentsRender(rs);
    QuickRepliesRender(cafeterias, target);
    var cs := MealComponents(rs);
    assert r == Envelope.Response(Refs(cs), Refs(QuickReplies(cafeterias, target)), [], VNone);
    ResponseRenders(cs, QuickReplies(cafeterias, target));
  }

  /** With the `validate` and `render` of response/base.py as written, every meal-view
      answer raises AssertionError: it always holds one or two components, and none of
      them is an instance of that file's own `ParentComponent`. */
  lemma ViewRaisesAsWritten(cafeterias: seq<Restaurant>, target: Value, standard: int)
    ensures Envelope.RenderAsWritten(MealViewResponse(cafeterias, target, standard)) == Failure(Errors.AssertionError)
  {
  }

  /** A response of components and quick replies that each validate and render, with no
      context and no data, renders exactly when it has at most ten quick replies. */
  lemma ResponseRenders(cs: seq<Components.Component>, qs: seq<Replies.QuickReply>)
    requires |cs| <= Envelope.MaxComponents
    requires forall i | 0 <= i < |cs| :: Components.Validate(cs[i]).Success? && Components.Render(cs[i]).Success?
    requires forall i | 0 <= i < |qs| :: Replies.ValidateQuickReply(qs[i]).Success? && Replies.RenderQuickReply(qs[i]).Success?
    ensures Envelope.Render(Envelope.Response(Refs(cs), Refs(qs), [], VNone)).Success? <==> |qs| <= Envelope.MaxQuickReplies
  {
    var r := Envelope.Response(Refs(cs), Refs(qs), [], VNone);
    ComponentRefsPass(cs);
    ReplyRefsPass(qs);
    assert Envelope.Valid(r) <==> |qs| <= Envelope.MaxQuickReplies;
    assert Envelope.RendersAll(r);
  }

  lemma ComponentRefsPass(cs: seq<Components.Component>)
    requires forall i | 0 <= i < |cs| :: Components.Validate(cs[i]).Success? && Components.Render(cs[i]).Success?
    ensures forall i | 0 <= i < |Refs(cs)| :: Validates(Refs(cs)[i], Components.Validate) && Renders(Refs(cs)[i], Envelope.Output)
  {
  }

  lemma ReplyRefsPass(qs: seq<Replies.QuickReply>)
    requires forall i | 0 <= i < |qs| :: Replies.ValidateQuickReply(qs[i]).Success? && Replies.RenderQuickReply(qs[i]).Success?
    ensures forall i | 0 <= i < |Refs(qs)| :: Validates(Refs(qs)[i], Replies.ValidateQuickReply) && Renders(Refs(qs)[i], Replies.RenderQuickReply)
  {
  }

  /** Every component of the answer validates and renders. */
  lemma ViewComponentsRender(rs: seq<Restaurant>)
    ensures var cs := MealComponents(rs);
      forall i | 0 <= i < |cs| :: Components.Validate(cs[i]).Success? && Components.Render(cs[i]).Success?
  {
    var lunch := Components.NewCarousel(MealCards.MealCards(rs, Cafeteria.Lunch));
    var dinner := Components.NewCarousel(MealCards.MealCards(rs, Cafeteria.Dinner));
    CarouselPasses(rs, Cafeteria.Lunch);
    CarouselPasses(rs, Cafeteria.Dinner);
    assert MealComponents(rs) == ViewComponents(lunch, dinner);
    ComponentsPass(lunch, dinner);
  }

  /** A meal's carousel, once it has a card, validates and renders. */
  lemma CarouselPasses(rs: seq<Restaurant>, m: Cafeteria.Meal)
    ensures var c := Components.NewCarousel(MealCards.MealCards(rs, m));
      |c.items| > 0 ==> Components.Validate(c).Success? && Components.Render(c).Success?
  {
    if |MealCards.MealCards(rs, m)| > 0 {
      MealCards.CarouselRendersAsTextCards(rs, m);
    }
  }

  /** When each non-empty carousel validates and renders, so does every component
      shown. */
  lemma ComponentsPass(lunch: Components.Component, dinner: Components.Component)
    requires lunch.CarouselComponent? && dinner.CarouselComponent?
    requires |lunch.items| > 0 ==> Components.Validate(lunch).Success? && Components.Render(lunch).Success?
    requires |dinner.items| > 0 ==> Components.Validate(dinner).Success? && Components.Render(dinner).Success?
    ensures var cs := ViewComponents(lunch, dinner);
      forall i | 0 <= i < |cs| :: Components.Validate(cs[i]).Success? && Components.Render(cs[i]).Success?
  {
    var noMeals := Components.SimpleTextComponent(VStr(NoMeals));
    assert Components.Validate(noMeals).Success? && Components.Render(noMeals).Success?;
  }

  /** Every quick reply of the answer validates and renders. */
  lemma QuickRepliesRender(cafeterias: seq<Restaurant>, target: Value)
    ensures var qs := QuickReplies(cafeterias, target);
      forall i | 0 <= i < |qs| :: Replies.ValidateQuickReply(qs[i]).Success? && Replies.RenderQuickReply(qs[i]).Success?
  {
    var qs := QuickReplies(cafeterias, target);
    var skip := if Truthy(target) then 1 else 0;
    var rest := Filter(cafeterias, NotNamed(target));
    OthersAreTheRest(cafeterias, target);
    forall i | 0 <= i < |qs| ensures Replies.RenderQuickReply(qs[i]).Success? {
      if i < skip {
        Replies.MessageQuickReplyRenders(ShowAll, MealsCommand, qs[i]);
      } else {
        assert qs[i] == Others(cafeterias, target)[i - skip];
        var name := rest[i - skip].name;
        Replies.MessageQuickReplyRenders(name, MealsCommand + " " + name, qs[i]);
      }
    }
  }

  // ------------------------------------------------------- menu validation

  const MaxMenus := 5
  const TooManyMenus := "메뉴는 5개까지만 등록할 수 있습니다.\n다시 입력해주세요."

  /** `validation_menu` on the already split menu list: more than five items is an
      ERROR with a message, anything else a SUCCESS. */
  function ValidateMenuList(menuList: seq<string>): (v: Replies.ValidationResponse)
    ensures v.status == "ERROR" <==> |menuList| > MaxMenus
    ensures v.status == "SUCCESS" <==> |menuList| <= MaxMenus
    ensures v.message.VStr? <==> |menuList| > MaxMenus
  {
    if |menuList| > MaxMenus then Replies.ValidationResponse("ERROR", VNone, VNone, VStr(TooManyMenus))
    else Replies.ValidationResponse("SUCCESS", VNone, VNone, VNone)
  }

  /** Either answer is what the constructor builds from the handler's arguments, and it
      renders to its status, plus the message for an ERROR. */
  lemma MenuValidationRenders(menuList: seq<string>)
    ensures var v := ValidateMenuList(menuList);
      && Replies.NewValidationResponse(VStr(v.status), VNone, VNone, v.message) == Success(v)
      && Replies.RenderValidationResponse(v).Success?
      && Replies.RenderValidationResponse(v).value[0] == ("status", VStr(v.status))
      && Get(Replies.RenderValidationResponse(v).value, "message") == if |menuList| > MaxMenus then Some(VStr(TooManyMenus)) else None
  {
    var v := ValidateMenuList(menuList);
    StatusesUpperCase();
    AnswerRenders(v);
  }

  /** Both statuses the handler uses are already upper case and known. */
  lemma StatusesUpperCase()
    ensures PyStrings.Upper("ERROR") == "ERROR" && PyStrings.Upper("SUCCESS") == "SUCCESS"
    ensures "ERROR" in Replies.Statuses && "SUCCESS" in Replies.Statuses
  {
    PyStrings.UpperOfCapitals("ERROR");
    PyStrings.UpperOfCapitals("SUCCESS");
    assert Replies.Statuses[2] == "ERROR" && Replies.Statuses[0] == "SUCCESS";
  }

  lemma AnswerRenders(v: Replies.ValidationResponse)
    requires v.status in Replies.Statuses && v.value.VNone? && v.data.VNone? && (v.message.VNone? || v.message.VStr?)
    ensures Replies.RenderValidationResponse(v).Success?
    ensures Replies.RenderValidationResponse(v).value[0] == ("status", VStr(v.status))
    ensures Get(Replies.RenderValidationResponse(v).value, "message") == if v.message.VStr? then Some(v.message) else None
  {
    Replies.ValidationBodyFields(v);
  }
}
