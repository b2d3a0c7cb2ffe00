/** The school's organisation directory (crawler/university_structure.py): a tree
    parsed from nested dicts, where a dict holding a phone number or a URL is a unit and
    any other dict is a group of named sub-organisations; and the search that resolves
    a "/"-separated path against it, falling back to a search by name anywhere in the
    tree when a path step is not a direct child. */
module University {
  import opened Wrappers
  import opened Errors
  import opened PyValue
  import opened PyStrings
  import Lists

  /** An `OrganizationUnit` or an `OrganizationGroup`; a group's sub-organisations keep
      the order of the dict they were parsed from. */
  datatype Node =
    | Unit(name: string, phone: Option<string>, url: Option<string>)
    | Group(name: string, subunits: seq<(string, Node)>)

  // ------------------------------------------------------------ parsing

  /** A `phone`/`url` entry as the `Optional[str]` field takes it: missing or None is
      None, a str is kept, anything else fails the model's validation. */
  function OptionalText(d: Dict, key: string): (r: Result<Option<string>, Error>)
    ensures r.Success? <==> (Get(d, key).None? || Get(d, key).value.VNone? || Get(d, key).value.VStr?)
    ensures r.Failure? ==> r.error.ValueError?
    ensures r == Success(None) <==> (Get(d, key).None? || Get(d, key).value.VNone?)
    ensures r.Success? && r.value.Some? ==> Get(d, key) == Some(VStr(r.value.value))
  {
    match Get(d, key)
    case None => Success(None)
    case Some(VNone) => Success(None)
    case Some(VStr(s)) => Success(Some(s))
    case Some(_) => Failure(ValueError("Input should be a valid string"))
  }

  /** Every group names each sub-organisation after its key. */
  predicate WellNamed(n: Node) {
    n.Group? ==> forall i | 0 <= i < |n.subunits| :: n.subunits[i].1.name == n.subunits[i].0 && WellNamed(n.subunits[i].1)
  }

  /** `_parse_data(name, data)`: a dict with a "phone" or "url" key is a unit; any other
      dict is a group whose sub-organisations are its entries, each parsed under its
      key. A value that is no dict cannot be parsed: `in` on a str or a list succeeds
      and the `get`/`items` that follows raises AttributeError; on anything else `in`
      raises TypeError. */
  function Parse(name: string, data: Value): (r: Result<Node, Error>)
    ensures r.Success? ==> r.value.name == name && WellNamed(r.value)
    ensures r.Success? ==> data.VDict?
    ensures data.VDict? && (HasKey(data.entries, "phone") || HasKey(data.entries, "url")) ==>
      && (r.Success? <==> OptionalText(data.entries, "phone").Success? && OptionalText(data.entries, "url").Success?)
      && (r.Success? ==> r.value == Unit(name, OptionalText(data.entries, "phone").value, OptionalText(data.entries, "url").value))
    ensures data.VDict? && !(HasKey(data.entries, "phone") || HasKey(data.entries, "url")) && r.Success? ==>
      && r.value.Group? && |r.value.subunits| == |data.entries|
      && forall i | 0 <= i < |data.entries| :: r.value.subunits[i].0 == data.entries[i].0
    ensures data.VStr? || data.VList? ==> r == Failure(AttributeError)
    ensures !(data.VDict? || data.VStr? || data.VList?) ==> r == Failure(TypeError)
    decreases data, 1
  {
    match data
    case VDict(entries) =>
      if HasKey(entries, "phone") || HasKey(entries, "url") then
        var phone :- OptionalText(entries, "phone");
        var url :- OptionalText(entries, "url");
        Success(Unit(name, phone, url))
      else
        var subunits :- ParseEntries(data, 0);
        Success(Group(name, subunits))
    case VStr(_) => Failure(AttributeError)
    case VList(_) => Failure(AttributeError)
    case _ => Failure(TypeError)
  }

  /** The sub-organisations parsed from the entries of `data` from index `i` on. */
  function ParseEntries(data: Value, i: nat): (r: Result<seq<(string, Node)>, Error>)
    requires data.VDict? && i <= |data.entries|
    ensures r.Success? ==> |r.value| == |data.entries| - i
    ensures r.Success? ==> forall j | 0 <= j < |r.value| ::
      && r.value[j].0 == data.entries[i + j].0
      && r.value[j].1.name == r.value[j].0 && WellNamed(r.value[j].1)
    decreases data, 0, |data.entries| - i
  {
    if i == |data.entries| then Success([])
    else
      var (key, value) := data.entries[i];
      assert data.entries[i] in data.entries;
      var node :- Parse(key, value);
      var rest :- ParseEntries(data, i + 1);
      Success([(key, node)] + rest)
  }

  /** The entry at index `j` of a dict, parsed under its own key. */
  function EntryParse(data: Value, j: nat): Result<Node, Error>
    requires data.VDict? && j < |data.entries|
  {
    Parse(data.entries[j].0, data.entries[j].1)
  }

  /** One step of `ParseEntries`: the entry at `i` is parsed before the rest. */
  lemma ParseEntriesHead(data: Value, i: nat)
    requires data.VDict? && i < |data.entries|
    ensures EntryParse(data, i).Failure? ==> ParseEntries(data, i) == Failure(EntryParse(data, i).error)
    ensures EntryParse(data, i).Success? && ParseEntries(data, i + 1).Failure? ==>
      ParseEntries(data, i) == Failure(ParseEntries(data, i + 1).error)
    ensures EntryParse(data, i).Success? && ParseEntries(data, i + 1).Success? ==>
      ParseEntries(data, i) == Success([(data.entries[i].0, EntryParse(data, i).value)] + ParseEntries(data, i + 1).value)
  {
  }

  /** Entries that each parse on their own parse together. */
  lemma {:induction false} ParseEntriesAllParse(data: Value, i: nat)
    requires data.VDict? && i <= |data.entries|
    requires forall j | i <= j < |data.entries| :: EntryParse(data, j).Success?
    ensures ParseEntries(data, i).Success?
    decreases |data.entries| - i
  {
    if i < |data.entries| {
      ParseEntriesAllParse(data, i + 1);
      ParseEntriesHead(data, i);
    }
  }

  /** Entries that parse together parse each on their own, and are held under their
      keys as their own parses, in order. */
  lemma {:induction false} ParseEntriesEach(data: Value, i: nat)
    requires data.VDict? && i <= |data.entries| && ParseEntries(data, i).Success?
    ensures forall j | i <= j < |data.entries| ::
      EntryParse(data, j).Success? && ParseEntries(data, i).value[j - i] == (data.entries[j].0, EntryParse(data, j).value)
    decreases |data.entries| - i
  {
    if i < |data.entries| {
      ParseEntriesHead(data, i);
      assert EntryParse(data, i).Success? && ParseEntries(data, i + 1).Success?;
      ParseEntriesEach(data, i + 1);
      var head, rest := (data.entries[i].0, EntryParse(data, i).value), ParseEntries(data, i + 1).value;
      forall j | i < j < |data.entries|
        ensures EntryParse(data, j).Success? && ([head] + rest)[j - i] == (data.entries[j].0, EntryParse(data, j).value)
      {
        assert rest[j - (i + 1)] == (data.entries[j].0, EntryParse(data, j).value);
        Lists.PrependIndex(head, rest, j - i);
      }
    }
  }

  /** A dict with neither "phone" nor "url" parses exactly when every entry parses,
      to the group of those entries' parses under their keys, in order. */
  lemma ParseGroup(name: string, data: Value)
    requires data.VDict? && !(HasKey(data.entries, "phone") || HasKey(data.entries, "url"))
    ensures Parse(name, data).Success? <==> forall j | 0 <= j < |data.entries| :: EntryParse(data, j).Success?
    ensures Parse(name, data).Success? ==> Parse(name, data).value.Group? && forall j | 0 <= j < |data.entries| ::
      EntryParse(data, j).Success? && Parse(name, data).value.subunits[j] == (data.entries[j].0, EntryParse(data, j).value)
  {
    if forall j | 0 <= j < |data.entries| :: EntryParse(data, j).Success? {
      ParseEntriesAllParse(data, 0);
    }
    if Parse(name, data).Success? {
      ParseEntriesEach(data, 0);
    }
  }

  /** `UniversityStructure.from_dict(data)`: the whole tree, named "Root". */
  function FromDict(data: Dict): (r: Result<Node, Error>)
    ensures r.Success? ==> r.value.name == "Root" && WellNamed(r.value)
  {
    Parse("Root", VDict(data))
  }

  // ---------------------------------------------------------- searching

  /** `subunits[key]`, when the key is there. */
  function Child(subunits: seq<(string, Node)>, key: string): (c: Option<Node>)
    ensures c.Some? <==> exists i | 0 <= i < |subunits| :: subunits[i].0 == key
    ensures c.Some? ==> (key, c.value) in subunits
  {
    if |subunits| == 0 then None
    else if subunits[0].0 == key then Some(subunits[0].1)
    else Child(subunits[1..], key)
  }

  /** Every node of a tree, root first, then each sub-organisation's nodes in order. */
  function Preorder(n: Node): (ns: seq<Node>)
    ensures |ns| >= 1 && ns[0] == n
    decreases n, 1
  {
    match n
    case Unit(_, _, _) => [n]
    case Group(_, subunits) => [n] + PreorderAll(n, 0)
  }

  function PreorderAll(g: Node, i: nat): seq<Node>
    requires g.Group? && i <= |g.subunits|
    decreases g, 0, |g.subunits| - i
  {
    if i == |g.subunits| then []
    else
      assert g.subunits[i] in g.subunits;
      Preorder(g.subunits[i].1) + PreorderAll(g, i + 1)
  }

  /** The nodes of `ns` named `query`, in order. */
  function Named(ns: seq<Node>, query: string): (r: seq<Node>)
    ensures forall x | x in r :: x.name == query && x in ns
    ensures forall x | x in ns && x.name == query :: x in r
  {
    if |ns| == 0 then []
    else (if ns[0].name == query then [ns[0]] else []) + Named(ns[1..], query)
  }

  lemma {:induction false} NamedAppend(a: seq<Node>, b: seq<Node>, query: string)
    ensures Named(a + b, query) == Named(a, query) + Named(b, query)
  {
    if |a| > 0 {
      assert (a + b)[0] == a[0] && (a + b)[1..] == a[1..] + b;
      NamedAppend(a[1..], b, query);
      Lists.PrependAssoc(if a[0].name == query then [a[0]] else [], Named(a[1..] + b, query), Named(a[1..], query), Named(b, query));
    } else {
      assert a + b == b;
    }
  }

  /** `_search_by_name(node, query)`: the node itself when it has the name, then the
      matches inside each sub-organisation, in order. */
  function SearchByName(n: Node, query: string): (r: seq<Node>)
    decreases n, 1
  {
    match n
    case Unit(_, _, _) => if n.name == query then [n] else []
    case Group(_, _) => (if n.name == query then [n] else []) + SearchAll(n, 0, query)
  }

  function SearchAll(g: Node, i: nat, query: string): seq<Node>
    requires g.Group? && i <= |g.subunits|
    decreases g, 0, |g.subunits| - i
  {
    if i == |g.subunits| then []
    else
      assert g.subunits[i] in g.subunits;
      SearchByName(g.subunits[i].1, query) + SearchAll(g, i + 1, query)
  }

  /** The search by name finds exactly the nodes with that name, in pre-order. */
  lemma {:induction false} SearchByNameIsPreorder(n: Node, query: string)
    ensures SearchByName(n, query) == Named(Preorder(n), query)
    decreases n, 1
  {
    match n
    case Unit(_, _, _) =>
    case Group(_, _) =>
      SearchAllIsPreorder(n, 0, query);
      NamedAppend([n], PreorderAll(n, 0), query);
  }

  lemma {:induction false} SearchAllIsPreorder(g: Node, i: nat, query: string)
    requires g.Group? && i <= |g.subunits|
    ensures SearchAll(g, i, query) == Named(PreorderAll(g, i), query)
    decreases g, 0, |g.subunits| - i
  {
    if i < |g.subunits| {
      assert g.subunits[i] in g.subunits;
      SearchByNameIsPreorder(g.subunits[i].1, query);
      SearchAllIsPreorder(g, i + 1, query);
      NamedAppend(Preorder(g.subunits[i].1), PreorderAll(g, i + 1), query);
    }
  }

  /** What one queue entry with a next path step `part` enqueues: nothing for a unit;
      the child for a group that has `part` as a key; otherwise every node in the whole
      tree named `part`. */
  function Step(root: Node, n: Node, part: string): seq<Node> {
    match n
    case Unit(_, _, _) => []
    case Group(_, subunits) =>
      match Child(subunits, part)
      case Some(c) => [c]
      case None => SearchByName(root, part)
  }

  /** The entries one level of the queue enqueues, in order. */
  function Expand(root: Node, level: seq<Node>, part: string): seq<Node> {
    if |level| == 0 then [] else Step(root, level[0], part) + Expand(root, level[1..], part)
  }

  /** The search level by level: every entry of a level has the same remaining path,
      so the level is used up (each entry enqueueing its successors) before the next
      one starts, and once the path is used up the first entry is the hit. */
  function Levels(root: Node, level: seq<Node>, parts: seq<string>): (hit: Option<Node>)
    ensures hit.Some? ==> |level| > 0
    decreases |parts|
  {
    if |level| == 0 then None
    else if |parts| == 0 then Some(level[0])
    else Levels(root, Expand(root, level, parts[0]), parts[1..])
  }

  /** One queue entry: a node and the path still to resolve below it. */
  type Entry = (Node, seq<string>)

  /** The entries of a level, each with the same remaining path. */
  function Tagged(level: seq<Node>, parts: seq<string>): (q: seq<Entry>)
    ensures |q| == |level| && forall i | 0 <= i < |level| :: q[i] == (level[i], parts)
  {
    seq(|level|, i requires 0 <= i < |level| => (level[i], parts))
  }

  lemma ExpandStep(root: Node, level: seq<Node>, i: nat, part: string)
    requires i < |level|
    ensures Expand(root, level[..i + 1], part) == Expand(root, level[..i], part) + Step(root, level[i], part)
    decreases i
  {
    if i > 0 {
      assert level[..i + 1][1..] == level[1..][..i];
      assert level[..i][1..] == level[1..][..i - 1];
      ExpandStep(root, level[1..], i - 1, part);
    } else {
      assert level[..1] == [level[0]];
    }
  }

  /** The queue while level `level` is being used up with path `parts[d..]`: the
      entries of the level not taken yet, then what the taken ones enqueued. */
  function QueueOf(level: seq<Node>, i: nat, next: seq<Node>, parts: seq<string>, d: nat): seq<Entry>
    requires i <= |level| && d <= |parts|
  {
    Tagged(level[i..], parts[d..]) + (if d < |parts| then Tagged(next, parts[d + 1..]) else [])
  }

  /** Taking the front entry and enqueueing its successors moves one entry from the
      level to the next one. */
  lemma TakeFront(level: seq<Node>, i: nat, next: seq<Node>, parts: seq<string>, d: nat, successors: seq<Node>)
    requires i < |level| && d < |parts|
    ensures QueueOf(level, i, next, parts, d)[0] == (level[i], parts[d..])
    ensures QueueOf(level, i, next, parts, d)[1..] + Tagged(successors, parts[d..][1..])
         == QueueOf(level, i + 1, next + successors, parts, d)
  {
    assert level[i..][1..] == level[i + 1..];
    assert parts[d..][1..] == parts[d + 1..];
    var q := QueueOf(level, i, next, parts, d);
    assert q[1..] == Tagged(level[i + 1..], parts[d..]) + Tagged(next, parts[d + 1..]);
    assert Tagged(next, parts[d + 1..]) + Tagged(successors, parts[d + 1..]) == Tagged(next + successors, parts[d + 1..]);
  }

  /** Once a level is used up, the queue is the next level with the path one step
      shorter, and the search result is that of the next level. */
  lemma NextLevel(root: Node, level: seq<Node>, next: seq<Node>, parts: seq<string>, d: nat)
    requires d < |parts| && next == Expand(root, level, parts[d])
    ensures QueueOf(level, |level|, next, parts, d) == QueueOf(next, 0, [], parts, d + 1)
    ensures Levels(root, level, parts[d..]) == Levels(root, next, parts[d + 1..])
  {
    assert parts[d..][1..] == parts[d + 1..];
    assert level[|level|..] == [] && next[0..] == next;
  }

  /** `_bfs_search(start, parts)` with its FIFO queue: take the front entry; with no
      path left it is the hit; a group enqueues its successors for the next path step;
      a unit with path left is dropped. The queue always holds the rest of one level
      followed by the start of the next, which is why the loop ends. */
  method BfsSearch(root: Node, start: Node, parts: seq<string>) returns (hit: Option<Node>)
    ensures hit == Levels(root, [start], parts)
  {
    var queue: seq<Entry> := [(start, parts)];
    ghost var level: seq<Node> := [start];
    ghost var d: nat := 0;
    ghost var i: nat := 0;
    ghost var next: seq<Node> := [];
    assert queue == QueueOf(level, i, next, parts, d);
    while |queue| > 0
      invariant d <= |parts| && i <= |level|
      invariant queue == QueueOf(level, i, next, parts, d)
      invariant d < |parts| ==> next == Expand(root, level[..i], parts[d])
      invariant d == |parts| ==> i == 0
      invariant Levels(root, [start], parts) == Levels(root, level, parts[d..])
      decreases |parts| - d, |level| - i
    {
      if i == |level| {
        assert level[..i] == level;
        NextLevel(root, level, next, parts, d);
        level, next, i, d := next, [], 0, d + 1;
      }
      assert i < |level| && queue[0] == (level[i], parts[d..]);
      var (node, remaining) := queue[0];
      if |remaining| == 0 {
        hit := Some(node);
        return;
      }
      TakeFront(level, i, next, parts, d, Step(root, node, remaining[0]));
      ExpandStep(root, level, i, parts[d]);
      queue := queue[1..] + Tagged(Step(root, node, remaining[0]), remaining[1..]);
      next := next + Step(root, node, remaining[0]);
      i := i + 1;
    }
    if d < |parts| {
      assert level[..i] == level;
      NextLevel(root, level, next, parts, d);
    }
    hit := None;
  }

  // --------------------------------------------------------- get_unit

  /** What `get_unit` answers: a unit, the sub-organisations of a group, or None. */
  datatype Answer = FoundUnit(unit: Node) | FoundGroup(members: seq<Node>) | NotFound

  /** `query.strip("/").split("/")`. */
  function PathOf(query: string): (parts: seq<string>)
    ensures |parts| >= 1
  {
    Split(Strip(query, '/'), '/')
  }

  /** The answer for a hit: a unit itself, or a group's sub-organisations in order. */
  function AnswerOf(hit: Option<Node>): (a: Answer)
    ensures hit.None? <==> a.NotFound?
    ensures hit.Some? && hit.value.Unit? ==> a == FoundUnit(hit.value)
    ensures hit.Some? && hit.value.Group? ==> a.FoundGroup? && |a.members| == |hit.value.subunits|
    ensures hit.Some? && hit.value.Group? ==> forall i | 0 <= i < |hit.value.subunits| :: a.members[i] == hit.value.subunits[i].1
  {
    match hit
    case None => NotFound
    case Some(Unit(_, _, _)) => FoundUnit(hit.value)
    case Some(Group(_, subunits)) => FoundGroup(seq(|subunits|, i requires 0 <= i < |subunits| => subunits[i].1))
  }

  /** `get_unit(query)`: the search from the root along the query's path. */
  method GetUnit(root: Node, query: string) returns (a: Answer)
    ensures a == AnswerOf(Levels(root, [root], PathOf(query)))
  {
    var hit := BfsSearch(root, root, PathOf(query));
    a := AnswerOf(hit);
  }

  // ------------------------------------------------------- properties

  /** Following keys from a node: the node the path leads to, if every step is a
      child key. */
  function Walk(n: Node, parts: seq<string>): Option<Node>
    decreases |parts|
  {
    if |parts| == 0 then Some(n)
    else if n.Unit? then None
    else match Child(n.subunits, parts[0])
      case None => None
      case Some(c) => Walk(c, parts[1..])
  }

  lemma ExpandHas(root: Node, level: seq<Node>, part: string, i: nat, c: Node)
    requires i < |level| && level[i].Group? && Child(level[i].subunits, part) == Some(c)
    ensures c in Expand(root, level, part)
    decreases i
  {
    if i > 0 {
      ExpandHas(root, level[1..], part, i - 1, c);
    }
  }

  /** When some node of a level has the whole remaining path as child keys, the
      search finds something. */
  lemma {:induction false} WalkFound(root: Node, level: seq<Node>, parts: seq<string>, n: Node)
    requires n in level && Walk(n, parts).Some?
    ensures Levels(root, level, parts).Some?
    decreases |parts|
  {
    if |parts| > 0 {
      var c := Child(n.subunits, parts[0]).value;
      var i :| 0 <= i < |level| && level[i] == n;
      ExpandHas(root, level, parts[0], i, c);
      WalkFound(root, Expand(root, level, parts[0]), parts[1..], c);
    }
  }

  /** A path made of child keys always leads to an answer. */
  lemma ExactPathFound(root: Node, query: string)
    requires Walk(root, PathOf(query)).Some?
    ensures Levels(root, [root], PathOf(query)).Some?
  {
    WalkFound(root, [root], PathOf(query), root);
  }

  lemma StepNamed(root: Node, n: Node, part: string)
    requires WellNamed(n)
    ensures forall x | x in Step(root, n, part) :: x.name == part && (n.Group? && Child(n.subunits, part).Some? ==> WellNamed(x))
  {
    if n.Group? && Child(n.subunits, part).Some? {
      var c := Child(n.subunits, part).value;
      var k :| 0 <= k < |n.subunits| && n.subunits[k] == (part, c);
    } else if n.Group? {
      SearchByNameIsPreorder(root, part);
    }
  }

  /** Every node of the tree, and so every node the search meets, is well named. */
  lemma {:induction false} PreorderWellNamed(n: Node)
    requires WellNamed(n)
    ensures forall x | x in Preorder(n) :: WellNamed(x)
    decreases n, 1
  {
    if n.Group? {
      PreorderAllWellNamed(n, 0);
    }
  }

  lemma {:induction false} PreorderAllWellNamed(g: Node, i: nat)
    requires g.Group? && i <= |g.subunits| && WellNamed(g)
    ensures forall x | x in PreorderAll(g, i) :: WellNamed(x)
    decreases g, 0, |g.subunits| - i
  {
    if i < |g.subunits| {
      assert g.subunits[i] in g.subunits;
      PreorderWellNamed(g.subunits[i].1);
      PreorderAllWellNamed(g, i + 1);
    }
  }

  lemma {:induction false} ExpandNamed(root: Node, level: seq<Node>, part: string)
    requires WellNamed(root) && forall x | x in level :: WellNamed(x)
    ensures forall x | x in Expand(root, level, part) :: x.name == part && WellNamed(x)
    decreases |level|
  {
    if |level| > 0 {
      StepNamed(root, level[0], part);
      if level[0].Group? && Child(level[0].subunits, part).None? {
        SearchByNameIsPreorder(root, part);
        PreorderWellNamed(root);
      }
      ExpandNamed(root, level[1..], part);
    }
  }

  /** In a parsed tree, the search's hit for a non-empty path is named after the last
      path step. */
  lemma {:induction false} HitNamedAfterLastStep(root: Node, level: seq<Node>, parts: seq<string>)
    requires WellNamed(root) && forall x | x in level :: WellNamed(x)
    requires |parts| > 0 && Levels(root, level, parts).Some?
    ensures Levels(root, level, parts).value.name == parts[|parts| - 1]
    decreases |parts|
  {
    var next := Expand(root, level, parts[0]);
    ExpandNamed(root, level, parts[0]);
    if |parts| > 1 {
      HitNamedAfterLastStep(root, next, parts[1..]);
    } else {
      assert Levels(root, level, parts) == Levels(root, next, []);
    }
  }

  /** A single name that is not a top-level key is looked up anywhere: the answer is
      the first node with that name in pre-order. */
  lemma SingleNameSearch(root: Node, name: string)
    requires root.Group? && Child(root.subunits, name).None?
    ensures Levels(root, [root], [name]) ==
      (if |Named(Preorder(root), name)| == 0 then None else Some(Named(Preorder(root), name)[0]))
  {
    SearchByNameIsPreorder(root, name);
    assert Expand(root, [root], name) == SearchByName(root, name);
  }
}
