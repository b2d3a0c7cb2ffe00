# Sandol: the Kakao skill-response library and the cafeteria menus, in Dafny

Sandol is a KakaoTalk chatbot for a university campus. This project models two parts of it.

The first part is the library that builds a Kakao i Open Builder skill response.
- The JSON the bot sends back is a `template`:
  - up to three `outputs` components (text, image, cards and carousels);
  - up to ten `quickReplies`;
  - optionally a `context` of named contexts.
- Every object has a `validate`, which raises a typed error, and a `render`, which builds a dict and drops its `None` entries.
- `Envelope.Add` merges two responses.
- The input side parses the request payload.
- The earlier `kakao/common.py` objects (the `Action` table of required fields, the legacy QuickReply, Button and ListItems) are modelled too, in `LegacyCommon`.

The second part is the cafeteria data the bot serves:
- the restaurant records and their menu editing (three generations of the `Restaurant` class);
- the crawler's in-memory menu registry;
- the university directory tree with its breadth-first path search;
- the pieces of the meal handlers that build the reply:
  - the lunch and dinner carousels;
  - the ordering of restaurants by registration time;
  - the quick replies;
  - the opening-time labels;
  - the five-item validation.

## How the model is built

Python values are one datatype, `PyValue.Value` (None, bool, int, str, list, and a dict of ordered string keys). A rendered object is an ordered list of key/value pairs, which is also the JSON value sent over the wire. An attribute typed as some class is a `Ref`: either an instance of that class or a plain value. That makes "wrong type" and "None" ordinary inputs rather than excluded ones.

Exceptions are the tags of `Errors.Error`, one per exception class; their message texts are not compared. A call that mutates its object and then raises returns both the new state and the error (`Errors.Effect`), because the caller sees the mutation.

Every operation is a pure function or a short method. Each one has a partner:
- a round trip, such as `from_dict` against `render`, or `int(str(n))`;
- an invariant it keeps, such as no duplicate menu items or a validating list;
- or a reference definition, such as pre-order search against breadth-first search, or a stable sort against its two partitions.

An all-inputs lemma connects each operation to its partner.

## Where the code and its documentation disagree

The model follows the code.
- `add_component` never skips an empty carousel. The meal handler skips it before calling.
- Adding a carousel item of another kind raises `AssertionError`. A carousel of mixed kinds fails `validate` with `InvalidTypeError`.
- The ten-reply and three-component caps raise `ValueError`.
- `Context.validate` always raises `InvalidTypeError`, because it checks the context object itself against `dict`. So a response holding a context never validates, although the tests expect one to.
- A context renders its lifetime under the key `lifespan`. The tests expect `lifeSpan`.
- A thumbnail and a basic card built with their defaults render `fixedRatio: false` and `forwardable: false`. The tests expect both keys absent.
- `KakaoResponse.is_empty` is inverted (see Findings).
- ItemCard has no head/profile exclusivity and no limits on its counts.
- CommerceCard has no precedence among its discount fields.
- The legacy QuickReply never consults `available_actions`. Its webLink and phone actions raise `AttributeError`, because the QuickReply lacks the attribute they require.
- The legacy `Link`, `Thumbnail` and `Profile` in `kakao/common.py` are the same code as those in `response/components/common.py`. The `Common` rows cover both.
- The snapshot's imports are inconsistent: `BasicCardComponent` is imported where `BasicCard` is defined, and `ParentComponent` is declared a second time in `response/base.py`. The rest of the model reads the two `ParentComponent` classes as one, as the class's documentation intends; what the second declaration does as written is modelled separately (see Findings).

## Model

| member | source | states |
|---|---|---|
| Interaction.UsesFieldsShape | sandol/api_server/kakao/response/interactiron.py:44-67 | the `uses_fields` table: no field is both required and optional, each action needs at most one required and one optional field, and exactly SHARE and OPERATOR require none |
| Interaction.FieldAttributeNames | sandol/api_server/kakao/response/interactiron.py:54-67 | every field the table names maps, through `camel_to_snake`, to one of the interaction's attributes |
| Interaction.MemberNamed | sandol/api_server/kakao/response/interactiron.py:131-136 | `getattr(ActionEnum, name)` finds the member with that name, and finds none exactly when no member has it |
| Interaction.ProcessAction | sandol/api_server/kakao/response/interactiron.py:109-137 | an enum member is kept; a non-str raises InvalidActionError; a str resolves to the member whose name is its upper case, and raises InvalidActionError exactly when no member has that name |
| Interaction.InitAction | sandol/api_server/kakao/response/interactiron.py:89-106 | the constructor stores a None action as None and otherwise stores what `process_action` returns, failing when it fails |
| Interaction.ProcessActionCaseInsensitive | sandol/api_server/kakao/response/interactiron.py:131 | a string and its lower-case form resolve to the same member or fail alike |
| Interaction.ProcessActionByValue | sandol/api_server/kakao/response/interactiron.py:36-41 | both the wire value ("webLink", "message", …) and the member name ("WEBLINK", …) of every action resolve to that action |
| Interaction.ResolvesTo | sandol/api_server/kakao/response/interactiron.py:131-136 | any string whose upper case is a member name resolves to that member |
| Interaction.NamesUpperCase | sandol/api_server/kakao/response/interactiron.py:36-41 | each member's wire value upper-cases to its name, and the name is already upper case |
| Interaction.FieldAttr | sandol/api_server/kakao/response/interactiron.py:173-182 | `getattr(self, camel_to_snake(field))` succeeds exactly when the attribute exists, yields its value, and raises AttributeError otherwise |
| Interaction.ValidateFields | sandol/api_server/kakao/response/interactiron.py:173-182 | the loops over the required or optional fields pass exactly when every field has an attribute holding a str (None allowed only for optional ones), failing with AttributeError or InvalidTypeError |
| Interaction.Validate | sandol/api_server/kakao/response/interactiron.py:139-182 | validation passes exactly when the interaction is well-formed; a non-dict extra raises InvalidTypeError first; an action outside the class's available actions raises InvalidActionError |
| Interaction.FieldEntries | sandol/api_server/kakao/response/interactiron.py:199-215 | the dict built from the fields holds exactly the named fields' values, skipping None values where the code skips them |
| Interaction.Render | sandol/api_server/kakao/response/interactiron.py:184-223 | no action renders `{}` without validating; with an action, rendering succeeds exactly when validation does and fails with validation's error |
| Interaction.RenderContents | sandol/api_server/kakao/response/interactiron.py:199-223 | a rendered valid interaction starts with its action's wire value, holds every required field, each optional field exactly when set, extra exactly when set, and no other key |
| Interaction.ResponseParts | sandol/api_server/kakao/response/interactiron.py:199-218 | where each entry of the dict built before None values are stripped comes from |
| Interaction.RenderUniqueKeys | sandol/api_server/kakao/response/interactiron.py:199-223 | a rendered interaction never repeats a key |
| Interaction.ResponseUniqueKeys | sandol/api_server/kakao/response/interactiron.py:199-218 | the dict built before stripping never repeats a key |
| Interaction.RenderKeys | sandol/api_server/kakao/response/interactiron.py:199-223 | a rendered valid interaction starts with "action", has unique keys, and uses only interaction keys |
| Interaction.RenderMerges | sandol/api_server/kakao/response/components/common.py:370-374 | updating a dict of non-interaction keys with a rendered interaction appends the interaction's entries, overwriting nothing |
| Common.ValidateLink | sandol/api_server/kakao/response/components/common.py:70-80 | a link validates exactly when at least one of web, pc and mobile is set and each is a str or None; all three None raises InvalidLinkError |
| Common.RenderLink | sandol/api_server/kakao/response/components/common.py:82-96 | rendering validates first and then holds exactly the links that are set, each a str, at least one of them |
| Common.RenderLinkRef | sandol/api_server/kakao/response/components/common.py:141-156 | a component's `link` attribute renders to None when unset, to the rendered link dict when it is a Link, and raises AttributeError for a plain non-None value |
| Common.NewThumbnail | sandol/api_server/kakao/response/components/common.py:113-127 | a new thumbnail keeps its image URL, has no link and has `fixed_ratio=False` |
| Common.ValidateThumbnail | sandol/api_server/kakao/response/components/common.py:129-139 | a thumbnail validates exactly when its image URL is a str or None, its link a Link or None and its ratio a bool or None, raising InvalidTypeError otherwise |
| Common.RenderThumbnail | sandol/api_server/kakao/response/components/common.py:141-156 | rendering succeeds exactly when the thumbnail validates and its link, if any, renders |
| Common.ThumbnailFields | sandol/api_server/kakao/response/components/common.py:150-156 | a rendered thumbnail is the None-stripped dict of image URL, ratio and rendered link, and the link entry is present exactly when a Link is set |
| Common.ThumbnailContents | sandol/api_server/kakao/response/components/common.py:141-156 | a rendered thumbnail holds the image URL and the ratio exactly when they are not None, the rendered link exactly when one is set, and nothing else |
| Common.DefaultThumbnailKeys | sandol/api_server/kakao/response/components/common.py:113-156 | a thumbnail built with only a str image URL renders with both `imageUrl` and `fixedRatio: false` |
| Common.ValidateProfile | sandol/api_server/kakao/response/components/common.py:178-185 | a profile validates exactly when nickname and image URL are each a str or None, raising InvalidTypeError otherwise |
| Common.RenderProfile | sandol/api_server/kakao/response/components/common.py:187-197 | rendering does not validate, never fails, and holds exactly the nickname and image URL that are not None |
| Common.NewListItem | sandol/api_server/kakao/response/components/common.py:220-239 | the constructor keeps title and block id, stores a None action as None and otherwise the processed action, failing when processing fails |
| Common.ValidateListItem | sandol/api_server/kakao/response/components/common.py:241-254 | a list item validates exactly when its interaction (if it has an action) is valid, its title a non-None str, description and image str or None, link a Link or None; a PHONE action always fails |
| Common.RenderListItem | sandol/api_server/kakao/response/components/common.py:256-272 | rendering succeeds exactly when the item validates and its link, if any, renders |
| Common.OwnKeysAreNotInteractionKeys | sandol/api_server/kakao/response/components/common.py:262-272 | a list item's own keys never clash with a key an interaction renders, so the update overwrites nothing |
| Common.ListItemWithoutAction | sandol/api_server/kakao/response/components/common.py:256-272 | without an action a rendered list item is just its own stripped fields, including its title |
| Common.ListItemWithAction | sandol/api_server/kakao/response/components/common.py:256-272 | with an action a rendered list item is its own stripped fields followed by the rendered interaction |
| Common.NewButton | sandol/api_server/kakao/response/components/common.py:305-337 | the constructor keeps the label, stores the processed action and raises InvalidActionError when it cannot be processed |
| Common.ValidateButton | sandol/api_server/kakao/response/components/common.py:339-355 | a button validates exactly when its label and link, message, phone and block texts are each a str or None and its interaction is valid with all six actions available |
| Common.RenderButton | sandol/api_server/kakao/response/components/common.py:357-374 | a button renders exactly when it validates |
| Common.ButtonContents | sandol/api_server/kakao/response/components/common.py:357-374 | a rendered button is the label followed by the rendered interaction: the label alone without an action, the action's wire value second otherwise |
| Common.LabelThenInteraction | sandol/api_server/kakao/response/components/common.py:370-374 | updating `{"label": …}` with a rendered interaction appends its entries |
| ItemCardParts.ValidateItemThumbnail | sandol/api_server/kakao/response/components/itemcard.py:59-67 | an item thumbnail validates exactly when its image URL is a non-None str and width and height are ints or None, raising InvalidTypeError otherwise |
| ItemCardParts.RenderItemThumbnail | sandol/api_server/kakao/response/components/itemcard.py:69-92 | rendering succeeds exactly when the thumbnail validates and its link is a renderable Link or None; a plain non-None link raises AttributeError |
| ItemCardParts.ItemThumbnailContents | sandol/api_server/kakao/response/components/itemcard.py:69-92 | a rendered item thumbnail holds the image URL, width and height exactly when set, the rendered link exactly when one is set, and nothing else |
| ItemCardParts.ValidateImageTitle | sandol/api_server/kakao/response/components/itemcard.py:125-133 | an image title validates exactly when its title is a non-None str and its description a str or None |
| ItemCardParts.RenderImageTitle | sandol/api_server/kakao/response/components/itemcard.py:135-153 | a rendered image title holds the title, and the description and image URL exactly when set, nothing else |
| ItemCardParts.ValidateItem | sandol/api_server/kakao/response/components/itemcard.py:178-184 | an item validates exactly when title and description are both non-None str |
| ItemCardParts.RenderItem | sandol/api_server/kakao/response/components/itemcard.py:186-202 | a valid item renders to exactly its title and description |
| ItemCardParts.SummaryLikeItem | sandol/api_server/kakao/response/components/itemcard.py:205-209 | an item list summary validates and renders exactly as an item with the same title and description |
| ItemCardParts.ValidateItemProfile | sandol/api_server/kakao/response/components/itemcard.py:244-254 | an item profile validates exactly when its title is a non-None str and the image URL, width and height have their types or are None |
| ItemCardParts.RenderItemProfile | sandol/api_server/kakao/response/components/itemcard.py:256-276 | an item profile renders exactly when it validates |
| ItemCardParts.ItemProfileContents | sandol/api_server/kakao/response/components/itemcard.py:256-276 | a rendered item profile holds the title, and image URL, width and height exactly when set, nothing else |
| ItemCardItems.BindItem | sandol/api_server/kakao/response/components/itemcard.py:165-176 | `Item(*args, **kwargs)` binds exactly the calls Item's signature accepts, yielding a non-summary item with the given title and description, and raises TypeError otherwise |
| ItemCardItems.BindPositionalOrKeyword | sandol/api_server/kakao/response/components/itemcard.py:165-176 | title and description bind the same item whether passed by position, by keyword or mixed |
| ItemCardItems.UnknownKeywordNeverBinds | sandol/api_server/kakao/response/components/itemcard.py:165-176 | a keyword Item does not declare, such as `item=`, always raises TypeError |
| ItemCardItems.AddItem | sandol/api_server/kakao/response/components/card.py:727-744 | `ItemCard.add_item` changes only the item list, only by appending at most two entries, and raises only TypeError; one Item argument is appended; with `item=` and no single argument the call raises |
| ItemCardItems.AddItemKeywordAppendsThenRaises | sandol/api_server/kakao/response/components/card.py:740-744 | `add_item(item=x)` leaves `x` appended and still raises TypeError |
| ItemCardItems.AddItemFixed | sandol/api_server/kakao/response/components/card.py:727-744 | the corrected `add_item` appends at most one item, changes nothing else, and appends `x` for `add_item(item=x)` |
| ItemCardItems.AddItemFixedAgrees | sandol/api_server/kakao/response/components/card.py:727-744 | on every call the written `add_item` completes, the corrected one gives the same item list |
| ItemCardItems.PopValue | sandol/api_server/kakao/response/components/card.py:770-776 | `list.pop(i)` removes one entry exactly when the index lies in the list's range (negative indices counting from the end), raising TypeError for a non-int |
| ItemCardItems.RemoveItem | sandol/api_server/kakao/response/components/card.py:761-776 | `ItemCard.remove_item` changes only the item list; with no positional argument it raises IndexError; an Item argument is removed (first occurrence) exactly when present |
| ItemCardItems.RemoveBy | sandol/api_server/kakao/response/components/card.py:768-776 | removing by a value: an Item is removed (first occurrence) exactly when present, an index pops one entry |
| ItemCardItems.RemoveItemKeywordRaises | sandol/api_server/kakao/response/components/card.py:768 | `remove_item(item=x)` raises IndexError even when `x` is in the list |
| ItemCardItems.RemoveItemFixed | sandol/api_server/kakao/response/components/card.py:761-776 | the corrected `remove_item` removes `x` for `remove_item(item=x)` when present and changes nothing else |
| ItemCardItems.RemoveItemFixedAgrees | sandol/api_server/kakao/response/components/card.py:761-776 | with a positional argument the corrected and the written `remove_item` agree |
| ItemCardItems.AddThenRemoveItem | sandol/api_server/kakao/response/components/card.py:727-776 | adding a new Item and removing it again gives back the card |
| Cards.ValidateButtons | sandol/api_server/kakao/response/components/base.py:77-86 | the base card check passes exactly when every button slot holds a Button or None, however many, raising InvalidTypeError otherwise |
| Cards.RenderButtons | sandol/api_server/kakao/response/components/card.py:90-96 | the buttons render to None when there are none and otherwise to the list of rendered buttons, failing exactly when one fails |
| Cards.AppendFromCall | sandol/api_server/kakao/response/components/base.py:147-153 | the dispatch of `add_button` and `add_item`: a lone object argument is appended as given; with no positional argument the keyword argument is appended as given; any other call appends what the constructor builds, or raises its error; the list only grows by one entry at the end |
| Cards.AddButton | sandol/api_server/kakao/response/components/base.py:132-154 | a lone Button or a `button=` argument is appended as given; any other call appends `Button(*args, **kwargs)` or raises what that call raises (TypeError when the arguments do not bind, InvalidActionError for a bad action) |
| Cards.ButtonOf | sandol/api_server/kakao/response/components/common.py:305-313 | a call builds a Button exactly when it binds to `Button`'s signature (at most seven positional arguments, keywords that name later parameters, label and action given), taking each attribute from its positional or keyword argument and None otherwise; any other call raises TypeError |
| Cards.MessageButtonBinds | sandol/api_server/kakao/response/components/common.py:305-313 | `Button("메뉴 보기", "message", message_text=t)` binds the label and action by position and the text by keyword, and leaves the other three attributes None |
| Cards.MessageButtonOf | sandol/api_server/kakao/response/components/common.py:305-337 | that call builds the MESSAGE button with that label and text |
| Cards.AddMessageButton | sandol/api_server/kakao/response/components/base.py:132-154 | `add_button("메뉴 보기", "message", message_text=t)` appends that message button; `add_button("메뉴 보기")` without an action raises TypeError |
| Cards.AddThenRemoveButton | sandol/api_server/kakao/response/components/base.py:89-164 | removing a newly added button gives back the original buttons |
| Cards.ValidateTextCard | sandol/api_server/kakao/response/components/card.py:59-74 | a text card validates exactly when its buttons pass, title or description is set, and the title (or, without one, the description) is a str; neither set raises ValueError; a str title always passes |
| Cards.RenderTextCard | sandol/api_server/kakao/response/components/card.py:76-96 | a text card renders exactly when it validates and its buttons render |
| Cards.TextCardContents | sandol/api_server/kakao/response/components/card.py:76-96 | a rendered text card holds title and description exactly when set and "buttons" exactly when there are buttons, and is never empty |
| Cards.ValidateBasicCard | sandol/api_server/kakao/response/components/card.py:167-179 | a basic card validates exactly when its buttons pass, its thumbnail is a Thumbnail or None, and title and description are str or None |
| Cards.RenderBasicCard | sandol/api_server/kakao/response/components/card.py:181-205 | a basic card renders exactly when it validates, has a thumbnail and its parts render; a valid card with no thumbnail raises AttributeError |
| Cards.BasicCardContents | sandol/api_server/kakao/response/components/card.py:181-205 | a rendered basic card holds the rendered thumbnail, forwardable, title and description exactly when set, and "buttons" exactly when there are buttons |
| Cards.NewCommerceCard | sandol/api_server/kakao/response/components/card.py:294-305 | one thumbnail is wrapped in a list, a list is kept, no buttons means an empty list, and the prices and currency are stored as given |
| Cards.ValidateCommerceCard | sandol/api_server/kakao/response/components/card.py:324-345 | a commerce card validates exactly when its buttons pass, the price is an int, thumbnails, title, description, discounts and profile have their types and a truthy currency is "won"; AssertionError is raised only for a truthy currency other than "won" |
| Cards.RenderCommerceCard | sandol/api_server/kakao/response/components/card.py:347-382 | a commerce card renders exactly when it validates and its thumbnails and buttons render |
| Cards.CommerceCardContents | sandol/api_server/kakao/response/components/card.py:347-382 | a rendered commerce card holds the price and the rendered thumbnails, currency and each discount exactly when set, "profile" exactly when a profile is set and "buttons" exactly when there are buttons |
| Cards.CommerceCardKeys | sandol/api_server/kakao/response/components/card.py:368-381 | the response dict names "profile" and "buttons" once each |
| Cards.NewListCard | sandol/api_server/kakao/response/components/card.py:427-433 | a str header becomes a ListItem titled with it, any other header is kept, and missing items or buttons become empty lists |
| Cards.TitleItemIsConstructed | sandol/api_server/kakao/response/components/card.py:427-433 | the header built from a str is what `ListItem(title=header)` constructs, and it validates |
| Cards.ValidateListCard | sandol/api_server/kakao/response/components/card.py:456-474 | a list card validates exactly when its buttons pass, it has between 1 and `max_items` items, at most `max_buttons` buttons, a ListItem header and ListItem-or-None items; a count out of range raises AssertionError |
| Cards.RenderListCard | sandol/api_server/kakao/response/components/card.py:476-502 | a list card renders exactly when it validates and header, items and buttons render |
| Cards.ListCardContents | sandol/api_server/kakao/response/components/card.py:476-502 | a rendered list card is the rendered header, then one rendered entry per item, then the buttons exactly when there are some |
| Cards.AddListItem | sandol/api_server/kakao/response/components/card.py:543-562 | a lone ListItem or an `item=` argument is appended as given; any other call appends `ListItem(*args, **kwargs)` or raises what that call raises; header and buttons are unchanged |
| Cards.ListItemOf | sandol/api_server/kakao/response/components/common.py:220-229 | a call builds a ListItem exactly when it binds to `ListItem`'s signature with the title given, taking each attribute from its argument and None otherwise; any other call raises TypeError |
| Cards.AddTitledListItem | sandol/api_server/kakao/response/components/card.py:543-562 | `add_item(title)` appends a ListItem with that title and every other attribute None; `add_item()` with no arguments raises TypeError |
| Cards.RemoveListItem | sandol/api_server/kakao/response/components/card.py:564-575 | removing succeeds exactly for a ListItem in the list and drops its first occurrence; a non-ListItem raises AssertionError and a missing one ValueError |
| Cards.AddThenRemoveListItem | sandol/api_server/kakao/response/components/card.py:505-575 | adding a new ListItem and removing it again gives back the card |
| Cards.ValidateItemCard | sandol/api_server/kakao/response/components/card.py:639-660 | an item card validates exactly when every part has its type (items, thumbnail, profile, image title, summary, texts), with no count limit and head and profile allowed together |
| Cards.Head | sandol/api_server/kakao/response/components/card.py:690 | the "head" value is `{"title": head}` for a truthy head and None otherwise |
| Cards.RenderItemCard | sandol/api_server/kakao/response/components/card.py:662-707 | an item card renders exactly when it validates and all its nested objects render |
| Cards.ItemCardContents | sandol/api_server/kakao/response/components/card.py:662-707 | a rendered item card holds one rendered entry per item, "head" exactly for a truthy head, and thumbnail, profile, image title and summary exactly when set |
| Cards.ItemCardKeys | sandol/api_server/kakao/response/components/card.py:688-706 | the response dict names each of its optional parts once |
| Components.ValidateName | sandol/api_server/kakao/response/components/base.py:37-52 | the base component check raises NotImplementedError exactly when the class name contains "Parent" |
| Components.NameCheck | sandol/api_server/kakao/response/components/base.py:51-52 | the abstract "ParentComponent" is refused and every concrete component name passes |
| Components.NamesDistinct | sandol/api_server/kakao/response/components/simple.py:130-150 | distinct component kinds have distinct type names, so a carousel's "type" tells its kind |
| Components.CardNeverEmpty | sandol/api_server/kakao/base.py:121-130 | no card renders to an empty dict |
| Components.Validate | sandol/api_server/kakao/response/components/simple.py:106-128 | a simple text validates exactly when its text is a str or None, a simple image when URL and alt text are; a carousel exactly when it is non-empty, all its items are cards of its one kind, and each item validates; an empty carousel raises AssertionError |
| Components.ValidateKinds | sandol/api_server/kakao/response/components/simple.py:127 | the carousel's item check passes exactly when every item has the carousel's kind |
| Components.Render | sandol/api_server/kakao/response/components/simple.py:130-150 | a simple text renders to its text, a simple image to URL and alt text, each exactly when it validates; a carousel renders exactly when it validates and its cards render, as its type name followed by one rendered card per item in order |
| Components.NewCarousel | sandol/api_server/kakao/response/components/simple.py:46-63 | a new carousel keeps its items, and takes its type from the first item, having none when empty |
| Components.AddCarouselItem | sandol/api_server/kakao/response/components/simple.py:74-96 | adding appends the item exactly when the carousel is empty or the item has the carousel's kind, raising AssertionError otherwise; an empty carousel takes the new item's kind |
| Components.RemoveCarouselItem | sandol/api_server/kakao/response/components/simple.py:98-104 | removing drops the first occurrence of a present item, keeps the kind, and raises ValueError for a missing one |
| Components.HomogeneousKept | sandol/api_server/kakao/response/components/simple.py:46-104 | constructing, adding and removing keep every carousel item of the carousel's kind |
| Components.HomogeneousValidates | sandol/api_server/kakao/response/components/simple.py:106-128 | a carousel whose items share its card kind validates exactly when it is non-empty and each item validates |
| Components.AddThenRemoveCarouselItem | sandol/api_server/kakao/response/components/simple.py:74-104 | removing a newly added item gives back the carousel's items |
| Components.IsEmpty | sandol/api_server/kakao/response/components/simple.py:65-72 | a carousel is empty exactly when it has no items, without rendering; any other component's `is_empty` renders it and fails exactly when rendering does |
| Components.RenderedNeverEmpty | sandol/api_server/kakao/base.py:121-130 | a component other than a carousel that renders is never empty |
| KakaoContext.FromDict | sandol/api_server/kakao/context.py:62-81 | `Context.from_dict` succeeds exactly when "name" and "lifespan" are present and every key is a constructor parameter, raising TypeError otherwise; each field takes its key's value or None |
| KakaoContext.Render | sandol/api_server/kakao/context.py:83-105 | the rendered context holds each set field under its wire key, never repeats a key and drops None values |
| KakaoContext.Validate | sandol/api_server/kakao/context.py:107-117 | `Context.validate` always raises InvalidTypeError, because it checks the context object itself against dict (and an int lifespan already fails the str check) |
| KakaoContext.RenderFromDict | sandol/api_server/kakao/context.py:62-105 | a dict `from_dict` accepts, with no None values, renders back to the same dict |
| KakaoContext.FromDictRender | sandol/api_server/kakao/context.py:49-105 | a context with a name and a lifespan is rebuilt from its rendering |
| Replies.NewQuickReply | sandol/api_server/kakao/response/base.py:46-67 | the constructor keeps label, message text, block id and extra and stores the processed action, raising InvalidActionError when it cannot be processed |
| Replies.DefaultActionIsMessage | sandol/api_server/kakao/response/base.py:46-67 | the default action "Message" resolves to MESSAGE |
| Replies.ValidateQuickReply | sandol/api_server/kakao/response/base.py:69-78 | a quick reply validates exactly when its label, message text and block id are str or None and its interaction is valid with only MESSAGE and BLOCK available; another action raises InvalidActionError |
| Replies.RenderQuickReply | sandol/api_server/kakao/response/base.py:80-97 | a quick reply renders exactly when it validates, failing with validation's error |
| Replies.QuickReplyContents | sandol/api_server/kakao/response/base.py:80-97 | a rendered quick reply is the label followed by the rendered interaction: the label alone without an action, the action's wire value second otherwise |
| Replies.OnlyMessageAndBlockRender | sandol/api_server/kakao/response/base.py:46-97 | a quick reply built with WEBLINK, PHONE, SHARE or OPERATOR is constructed but raises InvalidActionError when rendered |
| Replies.MessageQuickReplyRenders | sandol/api_server/kakao/response/base.py:80-97 | a message quick reply renders to exactly label, action "message" and message text |
| Replies.MessageQuickReply | sandol/api_server/kakao/response/base.py:46-97 | `QuickReply(label, message_text=text)` with the default action constructs and renders to label, "message" and the text |
| Replies.NewValidationResponse | sandol/api_server/kakao/response/base.py:164-174 | the constructor upper-cases a str status and raises AttributeError for a non-str one |
| Replies.ValidateValidationResponse | sandol/api_server/kakao/response/base.py:176-187 | a validation response validates exactly when its status is SUCCESS, FAIL, ERROR or IGNORE and value and message are str or None; another status raises ValueError |
| Replies.ValidationBody | sandol/api_server/kakao/response/base.py:189-210 | the rendered body starts with the status, never repeats a key and uses only the four validation keys |
| Replies.ValidationBodyFields | sandol/api_server/kakao/response/base.py:189-210 | value, data and message appear in the body exactly when they are not None |
| Replies.RenderValidationResponse | sandol/api_server/kakao/response/base.py:189-210 | a validation response renders exactly when it validates, to its body |
| Replies.StatusCaseInsensitive | sandol/api_server/kakao/response/base.py:164-174 | the status is taken case-insensitively |
| Replies.LowerCaseSuccess | sandol/api_server/kakao/response/base.py:164-187 | a response built with status "success" holds "SUCCESS" and validates |
| Envelope.NewResponse | sandol/api_server/kakao/response/base.py:315-355 | the constructor turns a single component or quick reply into a one-element list, keeps a list, uses an empty list when none is given, and keeps the contexts and data |
| Envelope.IsEmptyAsWritten | sandol/api_server/kakao/response/base.py:358-364 | `is_empty` as written is true exactly when the component list is truthy, that is non-empty |
| Envelope.IsEmpty | sandol/api_server/kakao/response/base.py:358-364 | the corrected `is_empty` is true exactly when there is no component |
| Envelope.IsEmptyInverted | sandol/api_server/kakao/response/base.py:364 | the written `is_empty` is always the negation of the corrected one; a response without components is reported non-empty |
| Envelope.ValidateAsWritten | sandol/api_server/kakao/response/base.py:366-407 | as written, more than three components raise ValueError and any other response with a component raises AssertionError, because no component is an instance of the second `ParentComponent`; a response without components validates as the corrected `validate` says |
| Envelope.RenderAsWritten | sandol/api_server/kakao/response/base.py:409-458 | as written, rendering fails for every response that holds a component, and agrees with the corrected `render` otherwise |
| Envelope.ValidComponentRefusedAsWritten | sandol/api_server/kakao/response/base.py:381-390 | a response the corrected `validate` accepts, holding a component, fails with AssertionError as written, in `validate` and in `render` |
| Envelope.ValidateNewAsWritten | sandol/api_server/kakao/response/base.py:336-340 | as written, the constructor does not wrap a single component in a list, so `validate` raises TypeError from `len`; every other argument validates as `ValidateAsWritten` of the built response |
| Envelope.SingleComponentRefusedAsWritten | sandol/api_server/kakao/response/base.py:336-340 | `KakaoResponse(SimpleTextComponent("학식"))` validates once the component is wrapped, and raises TypeError as written |
| Envelope.AddAsWritten | sandol/api_server/kakao/response/base.py:676-691 | as written, `response + component` returns the response unchanged; every other operand is added as the corrected `+` adds it |
| Envelope.AddComponentIgnoredAsWritten | sandol/api_server/kakao/response/base.py:679-680 | adding a component is a no-op as written, while the corrected `+` appends it as the last component |
| Envelope.Validate | sandol/api_server/kakao/response/base.py:366-407 | a response validates exactly when it has at most 3 components and 10 quick replies, each validates, there is no context and data is a dict or None; more than 3 components or 10 quick replies raises ValueError |
| Envelope.ContextNeverValidates | sandol/api_server/kakao/response/base.py:403-405 | a response whose components and quick replies pass but that carries any context fails at the first context |
| Envelope.NoContextValidates | sandol/api_server/kakao/response/base.py:403-405 | the context loop passes only when there are no contexts |
| Envelope.Output | sandol/api_server/kakao/response/base.py:430-433 | each output is `{class name: rendered component}`, failing exactly when the component does not render |
| Envelope.Assemble | sandol/api_server/kakao/response/base.py:447-456 | the envelope starts with version "2.0", never repeats a key, holds a template exactly when there are outputs or quick replies, the context as given, and the data only when truthy |
| Envelope.Render | sandol/api_server/kakao/response/base.py:409-458 | a response renders exactly when it validates and all its components and quick replies render |
| Envelope.RenderFields | sandol/api_server/kakao/response/base.py:409-458 | a rendered response has version "2.0", a template exactly when it has components or quick replies, no context, and its data exactly when truthy |
| Envelope.RenderAssembles | sandol/api_server/kakao/response/base.py:409-458 | the rendered response is the envelope assembled from the rendered outputs and quick replies |
| Envelope.RenderOutputs | sandol/api_server/kakao/response/base.py:428-433 | the template's outputs are one rendered output per component, in order |
| Envelope.RenderQuickReplies | sandol/api_server/kakao/response/base.py:435-438 | the template's quick replies are one rendered quick reply per quick reply, in order |
| Envelope.AddComponent | sandol/api_server/kakao/response/base.py:460-472 | `add_component` appends the component at the end and changes nothing else, without checking emptiness or count |
| Envelope.FourthComponentRefused | sandol/api_server/kakao/response/base.py:382-385 | adding a fourth component makes validation raise ValueError |
| Envelope.QuickReplyOf | sandol/api_server/kakao/response/base.py:535-562 | building a quick reply from call arguments binds them as `QuickReply`'s signature does, raising TypeError for a call it rejects |
| Envelope.AddQuickReply | sandol/api_server/kakao/response/base.py:535-562 | `add_quick_reply` appends exactly one quick reply and changes nothing else; a QuickReply argument with other arguments raises ValueError; a `quick_reply=` keyword must hold a QuickReply; other calls construct one |
| Envelope.AddQuickReplyObject | sandol/api_server/kakao/response/base.py:535-562 | a QuickReply passed by position or as `quick_reply=` is appended as it is |
| Envelope.LabelAndTextBind | sandol/api_server/kakao/response/base.py:535-562 | `add_quick_reply(label, message_text=text)` builds a message quick reply with that label and text |
| Envelope.AddQuickReplyByArguments | sandol/api_server/kakao/response/base.py:535-562 | `add_quick_reply(label, message_text=text)` appends the MESSAGE quick reply with that label and text |
| Envelope.EleventhQuickReplyRefused | sandol/api_server/kakao/response/base.py:392-395 | adding an eleventh quick reply succeeds but makes validation raise ValueError |
| Envelope.ContextOf | sandol/api_server/kakao/response/base.py:588-608 | building a context from call arguments binds name, lifespan, ttl and params as `Context`'s signature does, raising TypeError otherwise |
| Envelope.AddContext | sandol/api_server/kakao/response/base.py:588-608 | `add_context` appends exactly one context and changes nothing else; a Context argument with other arguments raises ValueError; a `context=` keyword must hold a Context; other calls construct one |
| Envelope.AddedContextNeverValidates | sandol/api_server/kakao/response/base.py:366-407 | after `add_context` succeeds the response never validates |
| Envelope.Add | sandol/api_server/kakao/response/base.py:676-691 | `+` adds a quick reply, component or context as the add methods do; with another response it concatenates components and quick replies and keeps only its own contexts and data; anything else leaves it unchanged |
| Envelope.AddResponsesAssociative | sandol/api_server/kakao/response/base.py:676-691 | adding responses is associative, as values (the in-place mutation of the operands is left out) |
| Envelope.AddEmptyResponse | sandol/api_server/kakao/response/base.py:676-691 | adding an empty response changes nothing |
| KakaoUtils.CamelToSnake | sandol/api_server/kakao/utils.py:5-17 | the snake-case name holds no upper-case letter, and begins with the lower case of the name's first letter |
| KakaoUtils.CamelToSnakeLength | sandol/api_server/kakao/utils.py:5-17 | the snake-case name is one character longer for every upper-case letter after the first |
| KakaoUtils.CamelToSnakeUnchanged | sandol/api_server/kakao/utils.py:5-17 | a name with no upper-case letter is left as it is |
| KakaoUtils.CamelToSnakeIdempotent | sandol/api_server/kakao/utils.py:5-17 | converting twice is converting once |
| KakaoUtils.TwoWords | sandol/api_server/kakao/utils.py:5-17 | a two-word camel-case name becomes the lower-cased first word, an underscore and the lower-cased second word |
| KakaoUtils.AppendWord | sandol/api_server/kakao/utils.py:5-17 | appending a capitalised word to a name appends "_" and the word in lower case to its snake-case name |
| KakaoUtils.KnownFieldNames | sandol/api_server/kakao/utils.py:5-17 | the interaction field names convert to `web_link_url`, `message_text`, `phone_number` and `block_id`, and "CamelCase" to `camel_case` |
| KakaoBase.RemoveNone | sandol/api_server/kakao/base.py:21-36 | `remove_none_item` keeps exactly the entries whose value is not None, in order |
| KakaoBase.RemoveNoneConcat | sandol/api_server/kakao/base.py:21-36 | stripping distributes over concatenation |
| KakaoBase.RemoveNoneNoOp | sandol/api_server/kakao/base.py:21-36 | a dict without None values is unchanged |
| KakaoBase.RemoveNoneIdempotent | sandol/api_server/kakao/base.py:21-36 | stripping twice is stripping once |
| KakaoBase.RemoveNoneKeys | sandol/api_server/kakao/base.py:21-36 | stripping adds no key and keeps keys unique |
| KakaoBase.StrippedGet | sandol/api_server/kakao/base.py:21-36 | looking a key up in the stripped dict gives its value when that is not None and nothing otherwise |
| Validation.ValidateType | sandol/api_server/kakao/validation.py:5-31 | `validate_type` passes exactly when every value is an instance of the type, or None when None is allowed, and otherwise raises the given exception |
| Validation.ValidateValues | sandol/api_server/kakao/validation.py:5-31 | with a tuple of types, a value passes when it is an instance of any of them |
| Validation.ValidateStr | sandol/api_server/kakao/validation.py:34-43 | `validate_str` passes exactly when every value is a str, or None when allowed, raising InvalidTypeError |
| Validation.ValidateInt | sandol/api_server/kakao/validation.py:46-55 | `validate_int` passes exactly when every value is an int (bools included), or None when allowed, raising InvalidTypeError |
| Validation.ValidateRefs | sandol/api_server/kakao/validation.py:5-31 | for object-valued attributes, each passes exactly when it is an instance of the class, or None when allowed |
| Validation.ValidateTypeConcat | sandol/api_server/kakao/validation.py:27-31 | checking two groups of values is checking the first group and then the second |
| LegacyCommon.SnakeAll | sandol/api_server/kakao/common.py:81-86 | the snake-case list has one entry per field, each the field's `camel_to_snake` |
| LegacyCommon.RequiredFieldsSnakeIsCamelToSnake | sandol/api_server/kakao/common.py:63-86 | `required_fields_snake` is None exactly when `required_fields` is, and otherwise converts each field in order |
| LegacyCommon.SnakesAreAttributes | sandol/api_server/kakao/common.py:63-86 | every snake-case required field names an interaction attribute |
| LegacyCommon.RequiredFieldsCoverResponsePackage | sandol/api_server/kakao/common.py:63-78 | the legacy table lists every field the response package requires, is None exactly for SHARE and OPERATOR, and additionally lists blockId for MESSAGE |
| LegacyCommon.NewQuickReply | sandol/api_server/kakao/common.py:542-562 | the legacy QuickReply has exactly the message text and block id attributes and stores the processed action, raising InvalidActionError when it cannot be processed |
| LegacyCommon.NewButton | sandol/api_server/kakao/common.py:604-635 | the legacy Button has all four interaction attributes and stores the processed action, raising InvalidActionError when it cannot be processed |
| LegacyCommon.DefaultQuickReplyAction | sandol/api_server/kakao/common.py:542-562 | the default action "Message" resolves to MESSAGE |
| LegacyCommon.CheckAttrs | sandol/api_server/kakao/common.py:484-486 | the loop over `required_fields_snake` passes exactly when each named attribute exists and holds a str or None, raising AttributeError for a missing one |
| LegacyCommon.CheckExtra | sandol/api_server/kakao/common.py:488 | `validate_type(dict, extra)` passes exactly for a dict or None |
| LegacyCommon.Validate | sandol/api_server/kakao/common.py:465-488 | a legacy interaction validates exactly when its own attributes are str or None, its label is, every required attribute exists and extra is a dict or None; AttributeError is raised exactly when only a required attribute is missing |
| LegacyCommon.Render | sandol/api_server/kakao/common.py:490-515 | a legacy interaction renders exactly when it validates, failing with validation's error |
| LegacyCommon.RenderContents | sandol/api_server/kakao/common.py:490-515 | a rendered legacy interaction holds the label when set, the action's wire value, each required field exactly when set, extra exactly when set, and nothing else |
| LegacyCommon.TypedValidates | sandol/api_server/kakao/common.py:465-488 | with well-typed attributes, validation passes exactly when every required attribute exists, and otherwise raises AttributeError |
| LegacyCommon.QuickReplyIgnoresAvailableActions | sandol/api_server/kakao/common.py:564-572 | a legacy quick reply validates with any action except WEBLINK and PHONE, which raise AttributeError because it has no attribute for their field |
| LegacyCommon.MissingRequiredFieldsPass | sandol/api_server/kakao/common.py:465-515 | a legacy MESSAGE or BLOCK quick reply with no message text or block id validates and renders to just label and action |
| LegacyCommon.ButtonAnyAction | sandol/api_server/kakao/common.py:604-651 | a legacy Button with str-or-None attributes validates with every action |
| LegacyCommon.ValidateListItem | sandol/api_server/kakao/common.py:285-298 | a legacy list item validates exactly when its title is a str and description, image URL, block id and message text are str or None and its link a Link or None |
| LegacyCommon.RenderListItem | sandol/api_server/kakao/common.py:300-316 | a rendered legacy list item holds its title and only its own keys, with no None value |
| LegacyCommon.NewListItems | sandol/api_server/kakao/common.py:330-338 | the constructor keeps the maximum and the items, using an empty list when none are given |
| LegacyCommon.ValidateListItems | sandol/api_server/kakao/common.py:340-351 | a legacy item list validates exactly when it holds at most its maximum of ListItems or None; too many raises ValueError |
| LegacyCommon.AddItemAsWritten | sandol/api_server/kakao/common.py:353-366 | `add_item` as written appends a ListItem or None whenever the list holds at most the maximum, so a full list still grows |
| LegacyCommon.AddItemOverfills | sandol/api_server/kakao/common.py:353-366 | adding to a full list succeeds and leaves a list that no longer validates |
| LegacyCommon.AddItem | sandol/api_server/kakao/common.py:353-366 | the corrected `add_item` appends exactly when the list is below its maximum and raises ValueError otherwise |
| LegacyCommon.AddItemKeepsValid | sandol/api_server/kakao/common.py:340-366 | the corrected `add_item` keeps a valid list valid |
| LegacyCommon.RemoveItem | sandol/api_server/kakao/common.py:368-379 | removing takes out one occurrence of a present item, keeping the maximum, and raises ValueError for a missing one |
| LegacyCommon.RemoveUndoesAdd | sandol/api_server/kakao/common.py:353-379 | removing a newly added item gives back the list |
| LegacyCommon.RenderListItems | sandol/api_server/kakao/common.py:381-391 | a legacy item list renders exactly when it validates and every item renders, to one rendered item per entry in order |
| LegacyCommon.IsEmpty | sandol/api_server/kakao/common.py:394-400 | the list is empty exactly when it holds no item |
| LegacyCommon.NoneItemBreaksRender | sandol/api_server/kakao/common.py:340-391 | a None item is accepted by `add_item` and by validation but makes rendering fail |
| KakaoInput.SpreadParam | sandol/api_server/kakao/input.py:45-63 | `Param(origin=…, groupName=…, **value)` binds exactly when the dict holds "value" and none of the bound keys, keeping every other key as an extra, and raises TypeError otherwise |
| KakaoInput.ParamFromDict | sandol/api_server/kakao/input.py:66-92 | `Param.from_dict` raises AttributeError for a non-dict, reads origin, value and groupName with defaults, and spreads a dict value into the constructor |
| KakaoInput.ParamRoundTrip | sandol/api_server/kakao/input.py:45-92 | a parameter with a non-dict value and no extras is read back from its dict |
| KakaoInput.ParamSpread | sandol/api_server/kakao/input.py:45-63 | a spread value dict yields its "value" and keeps its other keys as extras |
| KakaoInput.ParseDetailParams | sandol/api_server/kakao/input.py:151-154 | the detail parameters are read entry by entry, keeping their keys and order, and fail with the first entry's error |
| KakaoInput.ActionFromDict | sandol/api_server/kakao/input.py:133-161 | `Action.from_dict` raises AttributeError for a non-dict or a non-dict detailParams; a detailParams entry that fails to parse makes the whole action fail with that entry's error; otherwise it raises KeyError exactly when clientExtra is missing; a parsed action keeps id, name, params and clientExtra and holds the parsed detailParams |
| KakaoInput.BotFromDict | sandol/api_server/kakao/input.py:186-204 | `Bot.from_dict` reads id and name with defaults and raises AttributeError for a non-dict |
| KakaoInput.KnowledgeFromDict | sandol/api_server/kakao/input.py:238-260 | `Knowledge.from_dict` reads answer, question, categories, landing URL and image URL with defaults and raises AttributeError for a non-dict |
| KakaoInput.IntentExtraFromDict | sandol/api_server/kakao/input.py:291-304 | `IntentExtra.from_dict` turns a None reason into an empty dict; for a dict it succeeds exactly when matched_knowledges is iterable and every element parses as a Knowledge, and then holds those knowledges, in order; without the key it holds none |
| KakaoInput.IntentFromDict | sandol/api_server/kakao/input.py:332-351 | `Intent.from_dict` keeps id and name and succeeds exactly when its extra parses |
| KakaoInput.UserFromDict | sandol/api_server/kakao/input.py:424-442 | `User.from_dict` reads id and type, turns None properties into an empty dict, and raises AttributeError for a non-dict |
| KakaoInput.UserRequestFromDict | sandol/api_server/kakao/input.py:479-502 | `UserRequest.from_dict` succeeds exactly for a dict whose user is a dict, keeping timezone, block, utterance, lang, params and callback URL |
| KakaoInput.ContextFromValue | sandol/api_server/kakao/input.py:545-569 | each payload context is read with `Context.from_dict`, and a non-dict raises TypeError |
| KakaoInput.PayloadFromDict | sandol/api_server/kakao/input.py:545-569 | a payload parses exactly when its intent, user request, bot and action each parse, its contexts are iterable and every context parses; a parsed payload holds those parsed sections and contexts, in order, and no contexts without a "contexts" key |
| KakaoInput.UserIdFromRequest | sandol/api_server/kakao/input.py:584-598 | `Payload.user_id` is the id under userRequest.user of the dict the payload was read from |
| KakaoInput.AccessorsFromRequest | sandol/api_server/kakao/input.py:600-641 | `params` is the action's `params` entry, `detail_params` the action's `detailParams` entries each parsed as a Param, and `utterance` the request's `utterance` entry ('' when missing) |
| KakaoInput.EmptyPayloadRaises | sandol/api_server/kakao/input.py:133-161 | an empty payload raises KeyError, because its action has no clientExtra |
| KakaoInput.MinimalPayload | sandol/api_server/kakao/input.py:545-569 | a payload holding only an action with clientExtra parses, every other part taking its defaults, and its user id is the default |
| Cafeteria.MealOf | sandol/crawler/cafeteria.py:124-134 | a meal time names lunch or dinner exactly when its lower case is "lunch" or "dinner" |
| Cafeteria.MealOfIgnoresCase | sandol/crawler/cafeteria.py:124-134 | the meal a text names does not depend on its letter case |
| Cafeteria.NewRestaurant | sandol/crawler/cafeteria.py:20-31 | a restaurant can be built exactly for the five names of the `rest_info` table, any other name raising ValueError; a built one keeps name, location, registration time and menus, and starts with empty temporary menus |
| Cafeteria.OnlyKnownRestaurants | sandol/crawler/cafeteria.py:76-113 | each of the five names in the table builds a restaurant, and a name outside it, such as "학생식당", raises the not-found ValueError |
| Cafeteria.NewRestaurantHasNoEdits | sandol/crawler/cafeteria.py:28-29 | a new restaurant has no temporary menu to submit for any meal time |
| Cafeteria.MealSlot | sandol/crawler/cafeteria.py:120-136 | a non-str meal time raises TypeError, one naming neither meal raises ValueError, and otherwise the meal is selected |
| Cafeteria.AddMenuAsWritten | sandol/crawler/cafeteria.py:115-136 | `add_menu` as written always raises: after appending a new menu (or finding it present) it raises the "already listed" ValueError, and a bad meal time raises before any change |
| Cafeteria.AddReportsDuplicateAfterAdding | sandol/crawler/cafeteria.py:124-128 | adding a new lunch menu appends it and still reports it as already listed |
| Cafeteria.DeleteMenuAsWritten | sandol/crawler/cafeteria.py:138-159 | `delete_menu` as written always raises: after removing a present menu (or finding it missing) it raises the "not listed" ValueError |
| Cafeteria.DeleteReportsMissingAfterDeleting | sandol/crawler/cafeteria.py:147-151 | deleting the only lunch menu removes it and still reports it as not listed |
| Cafeteria.AddMenu | sandol/crawler/cafeteria.py:115-136 | the corrected `add_menu` appends a new menu without raising and raises the duplicate error, changing nothing, exactly when the menu is already listed; its state always agrees with the written one |
| Cafeteria.DeleteMenu | sandol/crawler/cafeteria.py:138-159 | the corrected `delete_menu` removes a listed menu's first occurrence without raising and raises the missing error, changing nothing, exactly when it is not listed; its state always agrees with the written one |
| Cafeteria.AddKeepsNoDuplicates | sandol/crawler/cafeteria.py:115-136 | adding keeps the temporary menus free of duplicates |
| Cafeteria.DeleteUndoesAdd | sandol/crawler/cafeteria.py:115-159 | deleting a menu just added gives back the restaurant |
| Cafeteria.ClearMenu | sandol/crawler/cafeteria.py:161-169 | clearing empties the menus and the temporary menus and keeps everything else |
| Cafeteria.SubmitUpdateMenu | sandol/crawler/cafeteria.py:201-210 | the update for "lunch" or "dinner" is the non-empty temporary list of that meal, and there is none otherwise |
| Cafeteria.SubmitAfterEdits | sandol/crawler/cafeteria.py:161-210 | after adding a lunch menu the lunch update ends with it; after clearing there is no update |
| CafeteriaRegistration.NewRestaurant | sandol/crawler/cafeteria_registration.py:7-14 | a new restaurant's temporary menu is its menus |
| CafeteriaRegistration.Save | sandol/crawler/cafeteria_registration.py:92-97 | saving copies the menus into the temporary menu and changes nothing else |
| CafeteriaRegistration.AddMenu | sandol/crawler/cafeteria_registration.py:43-62 | a non-str meal time raises TypeError; otherwise a new menu is appended to the meal it names, a listed one or an unknown meal changes nothing, and the temporary menu is saved |
| CafeteriaRegistration.DeleteMenu | sandol/crawler/cafeteria_registration.py:64-85 | a non-str meal time raises TypeError; otherwise a listed menu's first occurrence is removed from the meal it names, anything else changes nothing, and the temporary menu is saved |
| CafeteriaRegistration.ClearMenu | sandol/crawler/cafeteria_registration.py:87-90 | clearing empties both menus and the temporary menu |
| CafeteriaRegistration.AddIdempotent | sandol/crawler/cafeteria_registration.py:43-62 | adding the same menu twice is adding it once |
| CafeteriaRegistration.DeleteUndoesAdd | sandol/crawler/cafeteria_registration.py:43-85 | deleting a menu just added gives back the restaurant with its temporary menu saved |
| CafeteriaRegistration.EditsKeepNoDuplicates | sandol/crawler/cafeteria_registration.py:43-85 | adding and deleting keep menus free of duplicates |
| CafeteriaView.MealTime | sandol/crawler/cafeteria_view.py:42-48 | `meal_time.lower()` raises AttributeError for a non-str, and otherwise names the meal the lower case spells |
| CafeteriaView.AddMenu | sandol/crawler/cafeteria_view.py:42-48 | the view's `add_menu` appends the menu to the named meal even when it is listed, changes nothing for an unknown meal, and raises AttributeError for a non-str meal time |
| CafeteriaView.DeleteMenu | sandol/crawler/cafeteria_view.py:51-65 | the view's `delete_menu` removes a listed menu's first occurrence and otherwise changes nothing |
| CafeteriaView.GetTempMenus | sandol/crawler/cafeteria_view.py:70-72 | the temporary menus are the current lunch and dinner lists |
| CafeteriaView.Submit | sandol/crawler/cafeteria_view.py:75-80 | submitting returns the current menus and leaves both lists empty |
| CafeteriaView.DeleteAfterAddKeepsMenus | sandol/crawler/cafeteria_view.py:42-65 | adding a menu and deleting it again leaves the same menus up to order |
| CafeteriaView.DeleteUndoesAdd | sandol/crawler/cafeteria_view.py:42-65 | deleting a menu just added, when it was not listed, gives back the restaurant |
| CafeteriaView.AddKeepsDuplicates | sandol/crawler/cafeteria_view.py:42-48 | adding the same lunch menu twice lists it twice |
| MenuRegistry.UploadCafeteria | sandol/crawler/app.py:12-15 | registering a cafeteria sets its location, leaves the menus alone, reports the registration and keeps every menu's restaurant registered |
| MenuRegistry.UploadMenu | sandol/crawler/app.py:17-24 | for a registered cafeteria the comma-split lunch and dinner lists are stored; an unknown one changes nothing and is reported unregistered; every menu's restaurant stays registered |
| MenuRegistry.ResetMenuAsWritten | sandol/crawler/app.py:27-37 | `reset_menu` as written resets when the restaurant has a lunch menu or when any dinner menu exists |
| MenuRegistry.ResetReportsUnknownRestaurant | sandol/crawler/app.py:29 | while some other restaurant has a dinner menu, an unknown restaurant is reported reset and nothing changes |
| MenuRegistry.ResetMenu | sandol/crawler/app.py:27-37 | the corrected `reset_menu` removes the restaurant's menus and reports a reset exactly when it had a lunch or a dinner menu |
| MenuRegistry.ResetSameState | sandol/crawler/app.py:27-37 | the written and the corrected reset leave the same state |
| MenuRegistry.GetLunchMenu | sandol/crawler/app.py:39-44 | the lunch menu is the stored list, or a not-registered message |
| MenuRegistry.GetDinnerMenu | sandol/crawler/app.py:46-51 | the dinner menu is the stored list, or a not-registered message |
| MenuRegistry.UploadThenGet | sandol/crawler/app.py:17-51 | after uploading, the menus read back as the comma-split lists, which join back to the uploaded texts |
| MenuRegistry.ResetThenGet | sandol/crawler/app.py:27-51 | after a reset both menus read as not registered |
| University.OptionalText | sandol/crawler/university_structure.py:60-63 | a phone or URL entry that is missing or None is stored as None, a str is kept, and anything else fails the model's validation with ValueError |
| University.Parse | sandol/crawler/university_structure.py:56-66 | a dict with a "phone" or "url" key parses to a unit holding them; any other dict parses to a group with one sub-organisation per entry, named after its key and in order (which dicts parse, and to what, is `University.ParseGroup`); a str or list raises AttributeError and anything else TypeError |
| University.ParseEntries | sandol/crawler/university_structure.py:65 | a group's entries parse in order, each under its own key and name |
| University.ParseEntriesHead | sandol/crawler/university_structure.py:65 | the first remaining entry is parsed before the rest: its error comes first, then the rest's, and otherwise its parse is prepended to theirs |
| University.ParseEntriesAllParse | sandol/crawler/university_structure.py:65 | entries that each parse on their own parse together |
| University.ParseEntriesEach | sandol/crawler/university_structure.py:65 | entries that parse together each parse on their own, and each is held under its key as its own parse, in order |
| University.ParseGroup | sandol/crawler/university_structure.py:60-66 | a dict with neither "phone" nor "url" parses exactly when every entry parses, to a group holding each entry's parse under its key, in order |
| University.FromDict | sandol/crawler/university_structure.py:51-53 | the tree parsed from the directory's data has the root named "Root" and every sub-organisation named after its key |
| University.Child | sandol/crawler/university_structure.py:126-128 | a group has a sub-organisation for a key exactly when one of its entries has that key |
| University.Named | sandol/crawler/university_structure.py:141-153 | the nodes named by a query are exactly the nodes in the list with that name, in order |
| University.SearchByNameIsPreorder | sandol/crawler/university_structure.py:141-153 | `_search_by_name` returns exactly the nodes of the tree named by the query, in pre-order (a node before its sub-organisations, siblings in dict order) |
| University.BfsSearch | sandol/crawler/university_structure.py:89-139 | the FIFO search from a start node returns what resolving the path level by level returns: each step follows a direct child when there is one, otherwise every node of the whole tree with that name; the first node reached with no path left is the hit, and None when the queue runs dry |
| University.AnswerOf | sandol/crawler/university_structure.py:119 | a hit unit is returned itself, a hit group as the list of its sub-organisations in order, and no hit as None |
| University.GetUnit | sandol/crawler/university_structure.py:68-87 | `get_unit` strips "/" from both ends of the query, splits it at "/", and answers the search from the root along those parts |
| University.WalkFound | sandol/crawler/university_structure.py:112-139 | when a node in a level leads by direct children along the whole remaining path, the search finds something |
| University.ExactPathFound | sandol/crawler/university_structure.py:68-139 | a query that is an exact path of keys from the root always finds a node |
| University.HitNamedAfterLastStep | sandol/crawler/university_structure.py:112-139 | in a tree whose groups name sub-organisations after their keys, a hit is always named as the last part of the path |
| University.SingleNameSearch | sandol/crawler/university_structure.py:112-153 | a one-part query that is not a child of the root finds the first node of that name in pre-order, and nothing when there is none |
| MealCards.MakeMealCards | sandol/api_server/utils.py:6-33 | `make_meal_cards` returns a lunch carousel and a dinner carousel holding one text card per restaurant serving that meal, in the restaurants' order; adding never fails because every card is a text card |
| MealCards.CardsFollowServing | sandol/api_server/utils.py:21-32 | the cards of a meal are exactly the cards of the restaurants serving it, one each, in order |
| MealCards.ServingComplete | sandol/api_server/utils.py:21-32 | every restaurant serving a meal gets a card, as often as it is listed |
| MealCards.MealCardText | sandol/api_server/utils.py:23-32 | a card is titled "{name}(점심)" or "{name}(저녁)" and has no buttons, and its description split at line breaks gives back the menu when no item holds one |
| MealCards.MealCardRenders | sandol/api_server/utils.py:23-32 | every restaurant's card renders, holding its title and description and no buttons |
| MealCards.CarouselRendersAsTextCards | sandol/api_server/utils.py:6-33 | a non-empty meal carousel renders with type "textCard" and one rendered card per serving restaurant |
| MealCards.EmptyExactlyWithoutServing | sandol/api_server/utils.py:6-33 | a meal's carousel is empty exactly when no restaurant serves that meal |
| MealTime.PyInt | sandol/api_server/meal.py:157-164 | `int(s)` succeeds exactly for an optional sign followed by decimal digits, giving their value, and raises ValueError otherwise |
| MealTime.PyIntRoundTrip | sandol/api_server/meal.py:157-164 | `int(str(n))` is `n` |
| MealTime.ParseClock | sandol/api_server/meal.py:157-164 | reading "h:m:s" succeeds exactly when the text splits at ":" into three int literals, giving hours and minutes, and raises ValueError otherwise |
| MealTime.ParseClockRoundTrip | sandol/api_server/meal.py:157-164 | a clock's text reads back as its hours and minutes, whatever its seconds |
| MealTime.StartLabel | sandol/api_server/meal.py:166-181 | a start hour past 12 is labelled "오후" and counted from noon; 12 and earlier are labelled "오전" |
| MealTime.StartLabelRoundTrip | sandol/api_server/meal.py:166-181 | every hour of the day is read back from its start label |
| MealTime.StartLabelInjective | sandol/api_server/meal.py:166-181 | distinct hours of the day get distinct start labels |
| MealTime.NoonIsMorning | sandol/api_server/meal.py:166-170 | noon is labelled "오전 12" and one o'clock in the afternoon "오후 01" |
| MealTime.EndLabelValue | sandol/api_server/meal.py:172-185 | an end label is the hour counted from noon, padded to two digits and unlabelled, so a morning hour and the afternoon hour twelve later share it |
| MealTime.OpeningTime | sandol/api_server/meal.py:187-192 | the opening time succeeds exactly when all four clocks read, failing with the first clock's error, and is a two-by-two list |
| MealTime.OpeningTimeOfClocks | sandol/api_server/meal.py:157-192 | four clock texts come out as the labelled hours and the unpadded minutes, independent of their seconds |
| MealView.Filter | sandol/api_server/meal.py:421-426 | filtering keeps only matching restaurants, from the list |
| MealView.SortByTime | sandol/api_server/meal.py:445-446 | sorting by registration time is a permutation |
| MealView.SortSorted | sandol/api_server/meal.py:445-446 | the sorted list is ordered by registration time |
| MealView.SortStable | sandol/api_server/meal.py:445-446 | the sort is stable: restaurants with the same registration time keep their order |
| MealView.Order | sandol/api_server/meal.py:433-449 | the ordered list is a permutation of the restaurants |
| MealView.OrderParts | sandol/api_server/meal.py:433-449 | the ordered list holds first every restaurant registered at or after the standard time, sorted, then the earlier ones, sorted |
| MealView.OrderStable | sandol/api_server/meal.py:433-449 | restaurants with the same registration time keep their order |
| MealView.SameMembers | sandol/api_server/meal.py:433-449 | the ordered list holds exactly the restaurants given |
| MealView.Shown | sandol/api_server/meal.py:421-426 | with a truthy target only the restaurants with that name are shown, otherwise all |
| MealView.OthersAreTheRest | sandol/api_server/meal.py:475-481 | one "학식 {name}" message quick reply per restaurant not named by the target, in order |
| MealView.OthersNeverShowAll | sandol/api_server/meal.py:475-481 | no per-restaurant quick reply sends the plain "학식" command |
| MealView.QuickReplies | sandol/api_server/meal.py:467-481 | the quick replies start with "모두 보기" exactly when there is a target |
| MealView.QuickReplyCount | sandol/api_server/meal.py:467-481 | there is one quick reply for the target and one per other restaurant, and none of the others carries the target's name |
| MealView.ViewComponents | sandol/api_server/meal.py:456-465 | the components are the non-empty carousels, or the single "식단 정보가 없습니다." text when both are empty |
| MealView.MealViewResponse | sandol/api_server/meal.py:454-481 | the view's response carries no context and no data |
| MealView.NoMealsExactlyWhenEmpty | sandol/api_server/meal.py:409-465 | the response is the no-meals text exactly when no shown restaurant serves lunch or dinner |
| MealView.ViewRendersUnlessTooManyReplies | sandol/api_server/meal.py:409-483 | the view's response renders exactly when it has at most 10 quick replies |
| MealView.ResponseRenders | sandol/api_server/meal.py:454-483 | a response of valid, renderable components (at most 3) and quick replies renders exactly when there are at most 10 quick replies |
| MealView.ViewRaisesAsWritten | sandol/api_server/meal.py:454-483 | as written, rendering the meal view's response always raises AssertionError, because the response holds a component |
| MealView.ViewComponentsRender | sandol/api_server/meal.py:452-465 | every component the view adds validates and renders |
| MealView.CarouselPasses | sandol/api_server/utils.py:6-33 | a non-empty meal carousel validates and renders |
| MealView.QuickRepliesRender | sandol/api_server/meal.py:467-481 | every quick reply the view adds validates and renders |
| MealView.ValidateMenuList | sandol/api_server/meal.py:543-547 | a menu list longer than 5 gets status ERROR with a message, any other SUCCESS without one |
| MealView.MenuValidationRenders | sandol/api_server/meal.py:543-547 | the validation answer is what `ValidationResponse` constructs, renders with its status first, and carries the message exactly when the list is too long |

## Left out

- The HTTP handlers and routing. Only three pieces of `api_server/meal.py` are modelled: the opening-time labels, the ordering and reply building of the meal view, and the five-item validation. The missing-`detail_params` `KeyError` of the handlers is outside them.
- Storage and I/O: S3, file reads and writes, `Restaurant.by_id`, `get_meals`, `load_temp_menu` and the file write of `save_temp_menu`. `CafeteriaRegistration.Save` models only the in-memory update.
- The opening hours and the price per person that `Restaurant.rest_info` fills in, because it parses and formats them with `datetime`. Its refusal of a name outside its table is modelled in `Cafeteria.NewRestaurant`.
- The clock. The meal view takes the current time as a parameter, and registration times are plain integers, so time-zone normalisation is not modelled.
- `get_json` and `from_json` (`json.dumps`/`json.loads`). The model stops at the JSON value.
- Logging and `print`.
- `split_string`. The menu validation takes the already split list.
- `int()` accepting surrounding whitespace and digit underscores. `MealTime.PyInt` accepts only an optional sign followed by decimal digits.
- The `kakao_chatbot` package that some handlers import. The repository's own `kakao` library is modelled in its place.
- The `is_temp` keyword argument. `api_server/meal.py` calls `make_meal_cards(..., is_temp=True)` at lines 318 and 358, but the `make_meal_cards` of `sandol/api_server/utils.py` (lines 6-8) declares only `restaurants`, so those calls would raise `TypeError` against it. `meal.py` also imports helpers from `api_server.utils` that this `utils.py` does not define, so the two files come from different versions. The model follows `utils.py`.
- pydantic's machinery in `university_structure.py`. A unit's `phone` and `url` are modelled as optional strings.
- Python's full Unicode `str.lower`/`str.upper`. `KakaoUtils.CamelToSnake` lowers ASCII only. The upper-casing of action names covers ASCII and the few non-ASCII letters whose upper case is ASCII.
- Envelope.NewResponse, Envelope.Validate, Envelope.Render, Envelope.Add, MealView.ResponseRenders, MealView.ViewRendersUnlessTooManyReplies: these read the `ParentComponent` of `response/base.py` (line 100) and that of `response/components/base.py` as one class, as the documentation at base.py:100-107 intends. As written, real components subclass only the second one, with three outcomes. `validate` (and so `render`) raises AssertionError at base.py:389 for any response that holds a component. The constructor never wraps a single component (base.py:338), so `validate` raises TypeError from `len`. `response + component` (base.py:679) changes nothing. `Envelope.ValidateAsWritten`, `Envelope.RenderAsWritten`, `Envelope.ValidateNewAsWritten`, `Envelope.AddAsWritten` and `MealView.ViewRaisesAsWritten` model those outcomes.
- In-place mutation and aliasing of `KakaoResponse`. `__add__` (base.py:676-691) appends to `self` and returns `self`; `add_component`, `add_quick_reply` and `add_context` append in place; and the constructor keeps the caller's list rather than copying it. The model uses value semantics, so each operation returns a new response. `Envelope.AddResponsesAssociative` is a statement about values: in Python, `a + (b + c)` also changes `b`, and that side effect is not modelled.
- Values the Python types allow but the model cannot express. A carousel holds only components. An item card cannot have `item_list=None`. An object of the wrong class that has a `render` method is treated as a plain value.
- Identity versus equality. `list.remove` on objects without `__eq__` compares by identity; the model compares structurally.
- The error messages. Exceptions are tags of their class, and every custom error is a `ValueError` subclass.
- Shadowed or broken copies:
  - `api_server/kakao/response.py`, shadowed by the `response/` package;
  - `api_server/kakao/itemcard.py` and `ai.py`, which call helpers that do not exist;
  - `aws-sandol-api/api_server/kakao/skill.py`, whose base classes are not part of this model;
  - `sandol/crawler/crawler/cafeteria.py`, whose `by_id` returns the class object itself.
- Identical copies: `api_server/kakao/validatiion.py` and the `customerror.py` of `aws-sandol-api` duplicate `validation.py` and `customerror.py` and share their model.

## Findings

| source | as written | input that shows it | evidently intended | confidence | as-written member | corrected member |
|---|---|---|---|---|---|---|
| sandol/api_server/kakao/response/base.py:358-364 | `is_empty` returns `bool(self.component_list)` | a response with one component reports `is_empty() == True`; a fresh one reports `False` | true exactly when there are no components | not executed | Envelope.IsEmptyAsWritten, Envelope.IsEmptyInverted | Envelope.IsEmpty |
| sandol/api_server/kakao/response/components/card.py:735-744 | `add_item(item=x)` appends `x`, then also calls `Item(item=x)` | `add_item(item=Item("t", "d"))` appends the item, then raises `TypeError` | append the given item and stop | not executed | ItemCardItems.AddItem, ItemCardItems.AddItemKeywordAppendsThenRaises | ItemCardItems.AddItemFixed |
| sandol/api_server/kakao/response/components/card.py:761-776 | `remove_item` reads `arg[0]` before it looks at the keywords | `remove_item(item=x)` or `remove_item(index=0)` raises `IndexError` | remove by the keyword argument | not executed | ItemCardItems.RemoveItem, ItemCardItems.RemoveItemKeywordRaises | ItemCardItems.RemoveItemFixed |
| sandol/api_server/kakao/common.py:353-366 | `ListItems.add_item` refuses only when `len(items) > max` | adding to a list already at its maximum succeeds, and `validate` then rejects the list | refuse at `len(items) >= max` | not executed | LegacyCommon.AddItemAsWritten, LegacyCommon.AddItemOverfills | LegacyCommon.AddItem |
| sandol/crawler/cafeteria.py:124-134 | the duplicate `ValueError` is raised after the `if`, not inside it | `add_menu("lunch", "rice")` on an empty menu adds "rice", then raises the duplicate `ValueError` | raise only when the item is already listed | not executed | Cafeteria.AddMenuAsWritten, Cafeteria.AddReportsDuplicateAfterAdding | Cafeteria.AddMenu |
| sandol/crawler/cafeteria.py:147-157 | the missing `ValueError` is raised after the `if`, not inside it | `delete_menu("lunch", "rice")` on `["rice"]` removes it, then raises the not-registered `ValueError` | raise only when the item is not listed | not executed | Cafeteria.DeleteMenuAsWritten, Cafeteria.DeleteReportsMissingAfterDeleting | Cafeteria.DeleteMenu |
| sandol/crawler/app.py:29 | `restaurant in self.lunch_menu or self.dinner_menu` | with any dinner menu stored, `reset_menu("unknown")` reports a reset | `restaurant in self.lunch_menu or restaurant in self.dinner_menu` | not executed | MenuRegistry.ResetMenuAsWritten, MenuRegistry.ResetReportsUnknownRestaurant | MenuRegistry.ResetMenu |
| sandol/api_server/kakao/response/base.py:100-107 | `response/base.py` declares its own `ParentComponent`, and the constructor (line 338), `validate` (line 389) and `+` (line 679) test against it, while every component subclasses the class in `components/base.py` | `KakaoResponse([SimpleTextComponent("학식")]).validate()` raises AssertionError; `KakaoResponse(SimpleTextComponent("학식")).validate()` raises TypeError; `r + SimpleTextComponent("학식")` leaves `r` unchanged | one `ParentComponent`, the base of every component | not executed | Envelope.ValidateAsWritten, Envelope.RenderAsWritten, Envelope.ValidComponentRefusedAsWritten, Envelope.ValidateNewAsWritten, Envelope.SingleComponentRefusedAsWritten, Envelope.AddAsWritten, Envelope.AddComponentIgnoredAsWritten, MealView.ViewRaisesAsWritten | Envelope.NewResponse, Envelope.Validate, Envelope.Render, Envelope.Add |
