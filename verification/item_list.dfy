/** `ItemCardComponent.add_item` and `remove_item` (kakao/response/components/card.py):
    the item list of an item card grown from an `Item` or from `Item(...)` arguments,
    and shrunk by object or by index. Both dispatch on the shape of the call. */
module ItemCardItems {
  import opened Wrappers
  import opened Errors
  import opened PyValue
  import opened Lists
  import opened ItemCardParts
  import opened Cards

  type Items = seq<Ref<Item>>

  // ------------------------------------------------------ binding Item(...)

  /** The parameters of `Item.__init__`, in order. */
  const ItemParams: seq<string> := ["title", "description"]

  /** Whether `Item(*args, **kwargs)` binds: at most two positional arguments, keywords
      only for the parameters the positional ones left open, and every parameter given. */
  predicate ItemBinds(call: Call<Ref<Item>>) {
    && |call.args| <= 2
    && (forall k | 0 <= k < |call.kwargs| :: call.kwargs[k].0 in ItemParams[|call.args|..])
    && (forall p | p in ItemParams[|call.args|..] :: HasKw(call.kwargs, p))
  }

  /** The value bound to parameter `n` of `Item.__init__`. */
  function Bound(call: Call<Ref<Item>>, n: nat): Value
    requires n < 2 && ItemBinds(call)
  {
    if n < |call.args| then call.args[n].AsValue()
    else
      assert ItemParams[n] in ItemParams[|call.args|..];
      Kw(call.kwargs, ItemParams[n]).AsValue()
  }

  /** `Item(*args, **kwargs)`: TypeError when the arguments do not bind; otherwise a
      plain (non-summary) item holding the bound title and description, unchecked. */
  function BindItem(call: Call<Ref<Item>>): (r: Result<Item, Error>)
    ensures r.Success? <==> ItemBinds(call)
    ensures r.Failure? ==> r.error == TypeError
    ensures r.Success? ==> !r.value.summary
    ensures r.Success? && |call.args| == 2 ==>
      r.value.title == call.args[0].AsValue() && r.value.description == call.args[1].AsValue()
  {
    if ItemBinds(call) then Success(Item(Bound(call, 0), Bound(call, 1), false))
    else Failure(TypeError)
  }

  /** Python binds a title and a description alike whether they come positionally or
      by keyword. */
  lemma BindPositionalOrKeyword(title: Value, description: Value)
    ensures var positional := BindItem(Call([Plain(title), Plain(description)], []));
      && positional == Success(Item(title, description, false))
      && BindItem(Call([Plain(title)], [("description", Plain(description))])) == positional
      && BindItem(Call([], [("title", Plain(title)), ("description", Plain(description))])) == positional
      && BindItem(Call([], [("description", Plain(description)), ("title", Plain(title))])) == positional
  {
    var c1 := Call([Plain(title)], [("description", Plain(description))]);
    assert ItemParams[1..] == ["description"];
    assert ItemBinds(c1) by {
      assert HasKw(c1.kwargs, "description") by { assert c1.kwargs[0].0 == "description"; }
    }
    var c2 := Call([], [("title", Plain(title)), ("description", Plain(description))]);
    assert ItemBinds(c2) by {
      assert HasKw(c2.kwargs, "title") by { assert c2.kwargs[0].0 == "title"; }
      assert HasKw(c2.kwargs, "description") by { assert c2.kwargs[1].0 == "description"; }
    }
    var c3 := Call([], [("description", Plain(description)), ("title", Plain(title))]);
    assert ItemBinds(c3) by {
      assert HasKw(c3.kwargs, "title") by { assert c3.kwargs[1].0 == "title"; }
      assert HasKw(c3.kwargs, "description") by { assert c3.kwargs[0].0 == "description"; }
    }
    assert "title"[0] != "description"[0];
  }

  /** A keyword Item does not know, such as `item=`, never binds. */
  lemma UnknownKeywordNeverBinds(call: Call<Ref<Item>>, key: string)
    requires key !in ItemParams && HasKw(call.kwargs, key)
    ensures BindItem(call) == Failure(TypeError)
  {
    var k :| 0 <= k < |call.kwargs| && call.kwargs[k].0 == key;
    if |call.args| <= 2 {
      assert call.kwargs[k].0 !in ItemParams[|call.args|..];
    }
  }

  // ------------------------------------------------------------ add_item

  /** `ItemCard.add_item(*args, **kwargs)` as written. With one positional argument:
      an Item is appended, a title together with `description=` builds one, anything
      else is ignored. Otherwise `item=` is appended first and `Item(*args, **kwargs)`
      is built and appended regardless, so the keyword form appends and then raises. */
  function AddItem(c: ItemCard, call: Call<Ref<Item>>): (r: Effect<ItemCard>)
    ensures r.state.(itemList := c.itemList) == c
    ensures |c.itemList| <= |r.state.itemList| <= |c.itemList| + 2
    ensures r.state.itemList[..|c.itemList|] == c.itemList
    ensures r.raised.Some? ==> r.raised.value == TypeError
    ensures |call.args| == 1 && call.args[0].Inst? ==> r == Effect(c.(itemList := c.itemList + [call.args[0]]), None)
    ensures |call.args| != 1 && HasKw(call.kwargs, "item") ==> r.raised == Some(TypeError)
  {
    if |call.args| == 1 then
      if call.args[0].Inst? then Effect(c.(itemList := c.itemList + [call.args[0]]), None)
      else if HasKw(call.kwargs, "description") then
        match BindItem(call)
        case Success(it) => Effect(c.(itemList := c.itemList + [Inst(it)]), None)
        case Failure(e) => Effect(c, Some(e))
      else Effect(c, None)
    else
      var items := if HasKw(call.kwargs, "item") then c.itemList + [Kw(call.kwargs, "item")] else c.itemList;
      assert HasKw(call.kwargs, "item") ==> BindItem(call).Failure? by {
        if HasKw(call.kwargs, "item") { UnknownKeywordNeverBinds(call, "item"); }
      }
      match BindItem(call)
      case Success(it) => Effect(c.(itemList := items + [Inst(it)]), None)
      case Failure(e) => Effect(c.(itemList := items), Some(e))
  }

  /** `add_item(item=x)` leaves `x` in the list and still raises TypeError. */
  lemma AddItemKeywordAppendsThenRaises(c: ItemCard, x: Ref<Item>)
    ensures AddItem(c, Call([], [("item", x)])) == Effect(c.(itemList := c.itemList + [x]), Some(TypeError))
  {
    var call := Call([], [("item", x)]);
    assert call.kwargs[0].0 == "item";
    assert HasKw(call.kwargs, "item");
  }

  /** `add_item` with the keyword form given its own branch: `item=` alone appends
      that item, and a call that raises changes nothing. */
  function AddItemFixed(c: ItemCard, call: Call<Ref<Item>>): (r: Result<ItemCard, Error>)
    ensures r.Success? ==> r.value.(itemList := c.itemList) == c
    ensures r.Success? ==> c.itemList <= r.value.itemList && |r.value.itemList| <= |c.itemList| + 1
    ensures r.Failure? ==> r.error == TypeError
    ensures |call.args| == 0 && HasKw(call.kwargs, "item") ==>
      r == Success(c.(itemList := c.itemList + [Kw(call.kwargs, "item")]))
  {
    if |call.args| == 1 then
      if call.args[0].Inst? then Success(c.(itemList := c.itemList + [call.args[0]]))
      else if HasKw(call.kwargs, "description") then
        var it :- BindItem(call);
        Success(c.(itemList := c.itemList + [Inst(it)]))
      else Success(c)
    else if HasKw(call.kwargs, "item") then Success(c.(itemList := c.itemList + [Kw(call.kwargs, "item")]))
    else
      var it :- BindItem(call);
      Success(c.(itemList := c.itemList + [Inst(it)]))
  }

  /** Whenever the code as written returns normally, the corrected version returns the
      same card; the two differ only on calls the original lets raise. */
  lemma AddItemFixedAgrees(c: ItemCard, call: Call<Ref<Item>>)
    requires AddItem(c, call).raised.None?
    ensures AddItemFixed(c, call) == Success(AddItem(c, call).state)
  {
    if |call.args| != 1 && HasKw(call.kwargs, "item") {
      UnknownKeywordNeverBinds(call, "item");
    }
  }

  // --------------------------------------------------------- remove_item

  /** `list.pop(i)` with `i` a Python value: an int (or bool, which is an int) pops,
      anything else is a TypeError. */
  function PopValue(items: Items, i: Ref<Item>): (r: Result<Items, Error>)
    ensures r.Success? ==> |r.value| == |items| - 1
    ensures i.Plain? && i.v.VInt? ==> (r.Success? <==> -|items| <= i.v.i < |items|)
    ensures !(i.Plain? && (i.v.VInt? || i.v.VBool?)) ==> r == Failure(TypeError)
  {
    if i.Plain? && (i.v.VInt? || i.v.VBool?) then
      var (_, rest) :- Pop(items, AsInt(i.v));
      Success(rest)
    else Failure(TypeError)
  }

  /** `ItemCard.remove_item(*args, **kwargs)` as written: the first positional argument
      is read before anything else, so a call without one raises IndexError even when
      `item=` or `index=` is given. An Item is removed by value, an int index popped. */
  function RemoveItem(c: ItemCard, call: Call<Ref<Item>>): (r: Result<ItemCard, Error>)
    ensures r.Success? ==> r.value.(itemList := c.itemList) == c
    ensures r.Success? ==> |r.value.itemList| == |c.itemList| - 1 || r.value == c
    ensures |call.args| == 0 ==> r == Failure(IndexError)
    ensures |call.args| > 0 && call.args[0].Inst? ==>
      (r.Success? <==> call.args[0] in c.itemList)
      && (r.Success? ==> r.value.itemList == RemoveFirst(c.itemList, call.args[0]))
  {
    if |call.args| == 0 then Failure(IndexError)
    else RemoveBy(c, call.args[0], call.kwargs)
  }

  /** The dispatch `remove_item` performs once a first argument `x` exists: an Item by
      value, an int by position, then the `item=` and `index=` keywords, and otherwise
      nothing. */
  function RemoveBy(c: ItemCard, x: Ref<Item>, kwargs: seq<(string, Ref<Item>)>): (r: Result<ItemCard, Error>)
    ensures r.Success? ==> r.value.(itemList := c.itemList) == c
    ensures r.Success? ==> |r.value.itemList| == |c.itemList| - 1 || r.value == c
    ensures x.Inst? ==> (r.Success? <==> x in c.itemList)
                        && (r.Success? ==> r.value.itemList == RemoveFirst(c.itemList, x))
  {
    if x.Inst? then
      var items :- Remove(c.itemList, x);
      Success(c.(itemList := items))
    else if x.v.VInt? || x.v.VBool? then
      var items :- PopValue(c.itemList, x);
      Success(c.(itemList := items))
    else if HasKw(kwargs, "item") then
      var items :- Remove(c.itemList, Kw(kwargs, "item"));
      Success(c.(itemList := items))
    else if HasKw(kwargs, "index") then
      var items :- PopValue(c.itemList, Kw(kwargs, "index"));
      Success(c.(itemList := items))
    else Success(c)
  }

  /** `remove_item(item=x)` raises IndexError even when `x` is in the list. */
  lemma RemoveItemKeywordRaises(c: ItemCard, x: Ref<Item>)
    ensures RemoveItem(c, Call([], [("item", x)])) == Failure(IndexError)
  {
  }

  /** `remove_item` with the keyword forms reachable: without a positional argument
      the keywords decide. */
  function RemoveItemFixed(c: ItemCard, call: Call<Ref<Item>>): (r: Result<ItemCard, Error>)
    ensures r.Success? ==> r.value.(itemList := c.itemList) == c
    ensures r.Success? ==> |r.value.itemList| == |c.itemList| - 1 || r.value == c
    ensures |call.args| == 0 && HasKw(call.kwargs, "item") && Kw(call.kwargs, "item") in c.itemList ==>
      r == Success(c.(itemList := RemoveFirst(c.itemList, Kw(call.kwargs, "item"))))
  {
    if |call.args| > 0 then RemoveBy(c, call.args[0], call.kwargs)
    else if HasKw(call.kwargs, "item") then
      var items :- Remove(c.itemList, Kw(call.kwargs, "item"));
      Success(c.(itemList := items))
    else if HasKw(call.kwargs, "index") then
      var items :- PopValue(c.itemList, Kw(call.kwargs, "index"));
      Success(c.(itemList := items))
    else Failure(IndexError)
  }

  /** The corrected removal agrees with the code as written on every call that has a
      positional argument. */
  lemma RemoveItemFixedAgrees(c: ItemCard, call: Call<Ref<Item>>)
    requires |call.args| > 0
    ensures RemoveItemFixed(c, call) == RemoveItem(c, call)
  {
  }

  /** Adding an Item object and removing it again restores the card, provided the same
      object was not in the list already. */
  lemma AddThenRemoveItem(c: ItemCard, x: Item)
    requires Inst(x) !in c.itemList
    ensures AddItem(c, Call([Inst(x)], [])).raised.None?
    ensures RemoveItem(AddItem(c, Call([Inst(x)], [])).state, Call([Inst(x)], [])) == Success(c)
  {
    RemoveAppended(c.itemList, Inst(x));
  }
}
