/**
  A model of the in-memory item catalogue of the "Testing Starter API" service
  (backend/app/main.py): the Item record, the seeded table of items, the root
  greeting, the lookup handler and the insert-if-absent handler.

  The table is a map from integer id to Item. The pure functions Lookup and
  Insert say what the two handlers do to a given table; the class Store holds
  the one shared table that the process owns and is proved against them. A run
  of requests against one table (Serve, Replay) lets the lemmas at the end talk
  about the store over the whole life of the process.
 */
module CatalogApp {

  /** A catalogue record. Its `id` is supplied by the caller and is also its key. */
  datatype Item = Item(id: int, name: string)

  /** The two failures the handlers raise, as values rather than HTTP responses. */
  datatype Error = NotFound | AlreadyExists
  {
    /** The HTTP status code that accompanies the failure. */
    function Status(): (s: int)
      ensures 400 <= s < 500
      ensures s == 404 <==> NotFound?
      ensures s == 400 <==> AlreadyExists?
    {
      match this
      case NotFound => 404
      case AlreadyExists => 400
    }

    /** The `detail` text that accompanies the failure. */
    function Detail(): (d: string)
      ensures d == "Item not found" <==> NotFound?
      ensures d == "Item already exists" <==> AlreadyExists?
    {
      match this
      case NotFound => "Item not found"
      case AlreadyExists => "Item already exists"
    }
  }

  datatype Result<T> = Ok(value: T) | Err(error: Error)

  /** The body of the root endpoint. */
  datatype Greeting = Greeting(message: string)

  /** The in-memory "database": id to item. */
  type Table = map<int, Item>

  /** What a create request leaves behind: the new table and the response. */
  datatype Created = Created(table: Table, response: Result<Item>)

  /** The store invariant: every key is the id of the item stored under it. */
  predicate KeyedById(t: Table)
  {
    forall k :: k in t ==> t[k].id == k
  }

  /** The table the process starts with. */
  function Seed(): (t: Table)
    ensures t.Keys == {1, 2}
    ensures t[1] == Item(1, "Alpha") && t[2] == Item(2, "Beta")
    ensures KeyedById(t)
  {
    map[1 := Item(1, "Alpha"), 2 := Item(2, "Beta")]
  }

  /** GET /: a constant greeting that does not depend on the table. */
  function ReadRoot(): (g: Greeting)
    ensures g.message == "Hello World"
  {
    Greeting("Hello World")
  }

  /**
    GET /items/{id} against table `t`. A stored item is never falsy, so the
    handler's "not item" test fails exactly when the id is absent.
   */
  function Lookup(t: Table, id: int): (r: Result<Item>)
    ensures r.Ok? <==> id in t
    ensures r.Ok? ==> r.value == t[id]
    ensures r.Err? ==> r.error == NotFound && r.error.Detail() == "Item not found"
    ensures KeyedById(t) && r.Ok? ==> r.value.id == id
  {
    if id in t then Ok(t[id]) else Err(NotFound)
  }

  /** POST /items against table `t`: insert `item` under its own id unless that id is taken. */
  function Insert(t: Table, item: Item): (c: Created)
    ensures c.table.Keys == t.Keys + {item.id}
    ensures c.response.Ok? <==> item.id !in t
    ensures c.response.Ok? ==> c.response.value == item && c.table[item.id] == item
    ensures c.response.Err? ==> c.response.error == AlreadyExists && c.table == t
    ensures c.response.Err? ==> c.response.error.Detail() == "Item already exists"
    ensures forall k :: k in t ==> c.table[k] == t[k]
    ensures KeyedById(t) ==> KeyedById(c.table)
  {
    if item.id in t then Created(t, Err(AlreadyExists))
    else Created(t[item.id := item], Ok(item))
  }

  /** The one shared table, updated in place by CreateItem. */
  class Store {
    var items: Table

    ghost predicate Valid()
      reads this
    {
      KeyedById(items)
    }

    /** The state at process start: the two seeded items. */
    constructor ()
      ensures Valid()
      ensures items.Keys == {1, 2}
      ensures items[1] == Item(1, "Alpha") && items[2] == Item(2, "Beta")
    {
      items := Seed();
    }

    /** read_item: answers from the current table and changes nothing. */
    function ReadItem(id: int): (r: Result<Item>)
      reads this
      ensures r == Lookup(items, id)
      ensures Valid() && r.Ok? ==> r.value.id == id
    {
      Lookup(items, id)
    }

    /** create_item: the check and the insert of one request. */
    method CreateItem(item: Item) returns (r: Result<Item>)
      modifies this
      ensures Created(items, r) == Insert(old(items), item)
      ensures r.Ok? <==> item.id !in old(items)
      ensures r.Ok? ==> r.value == item && items == old(items)[item.id := item]
      ensures r.Ok? ==> ReadItem(item.id) == Ok(item)
      ensures r.Err? ==> r.error == AlreadyExists && items == old(items)
      ensures r.Err? ==> r.error.Detail() == "Item already exists"
      ensures old(Valid()) ==> Valid()
    {
      if item.id in items {
        r := Err(AlreadyExists);
        return;
      }
      items := items[item.id := item];
      r := Ok(item);
    }
  }

  /** A client that only uses the contracts above, on the seeded store. */
  method SeededStoreClient()
  {
    var s := new Store();
    assert s.ReadItem(1) == Ok(Item(1, "Alpha"));
    assert s.ReadItem(999) == Err(NotFound);
    var r := s.CreateItem(Item(1, "X"));
    assert r == Err(AlreadyExists) && s.ReadItem(1) == Ok(Item(1, "Alpha"));
    r := s.CreateItem(Item(3, "Gamma"));
    assert r == Ok(Item(3, "Gamma"));
    assert s.ReadItem(3) == Ok(Item(3, "Gamma")) && s.ReadItem(2) == Ok(Item(2, "Beta"));
  }

  // ---------------------------------------------------------------------------
  // The store across a run of requests

  datatype Request = GetRoot | GetItem(id: int) | PostItem(item: Item)

  datatype Response = RootResponse(greeting: Greeting) | ItemResponse(result: Result<Item>)

  datatype Served = Served(table: Table, response: Response)

  /** One request against table `t`: the table afterwards and the response. */
  function Serve(t: Table, req: Request): (s: Served)
    ensures !req.PostItem? ==> s.table == t
    ensures s.table.Keys == if req.PostItem? then t.Keys + {req.item.id} else t.Keys
    ensures forall k :: k in t ==> s.table[k] == t[k]
    ensures KeyedById(t) ==> KeyedById(s.table)
  {
    match req
    case GetRoot => Served(t, RootResponse(ReadRoot()))
    case GetItem(id) => Served(t, ItemResponse(Lookup(t, id)))
    case PostItem(item) =>
      var c := Insert(t, item);
      Served(c.table, ItemResponse(c.response))
  }

  /** The table after serving `reqs` in order, starting from `t`. */
  function Replay(t: Table, reqs: seq<Request>): Table
    decreases |reqs|
  {
    if reqs == [] then t else Replay(Serve(t, reqs[0]).table, reqs[1..])
  }

  /** Once stored, an item is never replaced or removed by any later request. */
  lemma {:induction false} ReplayKeepsStored(t: Table, reqs: seq<Request>, k: int)
    requires k in t
    ensures k in Replay(t, reqs) && Replay(t, reqs)[k] == t[k]
    decreases |reqs|
  {
    if reqs != [] {
      ReplayKeepsStored(Serve(t, reqs[0]).table, reqs[1..], k);
    }
  }

  /** Every run of requests preserves the store invariant. */
  lemma {:induction false} ReplayKeyedById(t: Table, reqs: seq<Request>)
    requires KeyedById(t)
    ensures KeyedById(Replay(t, reqs))
    decreases |reqs|
  {
    if reqs != [] {
      ReplayKeyedById(Serve(t, reqs[0]).table, reqs[1..]);
    }
  }

  /** A run only adds keys, and only the ids of items it posts. */
  lemma {:induction false} ReplayKeys(t: Table, reqs: seq<Request>, k: int)
    ensures k in Replay(t, reqs) <==>
              k in t || exists i :: 0 <= i < |reqs| && reqs[i].PostItem? && reqs[i].item.id == k
    decreases |reqs|
  {
    if reqs != [] {
      var t1 := Serve(t, reqs[0]).table;
      ReplayKeys(t1, reqs[1..], k);
      if exists j :: 0 <= j < |reqs[1..]| && reqs[1..][j].PostItem? && reqs[1..][j].item.id == k {
        var j :| 0 <= j < |reqs[1..]| && reqs[1..][j].PostItem? && reqs[1..][j].item.id == k;
        assert reqs[j + 1] == reqs[1..][j];
      }
      if exists i :: 0 <= i < |reqs| && reqs[i].PostItem? && reqs[i].item.id == k {
        var i :| 0 <= i < |reqs| && reqs[i].PostItem? && reqs[i].item.id == k;
        if i > 0 {
          assert reqs[1..][i - 1] == reqs[i];
        }
      }
    }
  }

  /** Every item in the table after a run was either there at the start or posted, exactly as stored, by the run. */
  lemma {:induction false} ReplayItemsOrigin(t: Table, reqs: seq<Request>, k: int)
    requires k in Replay(t, reqs) && k !in t
    ensures exists i :: 0 <= i < |reqs| && reqs[i] == PostItem(Replay(t, reqs)[k])
    decreases |reqs|
  {
    var t1 := Serve(t, reqs[0]).table;
    if k in t1 {
      assert reqs[0].PostItem? && reqs[0].item.id == k && t1[k] == reqs[0].item;
      ReplayKeepsStored(t1, reqs[1..], k);
      assert reqs[0] == PostItem(Replay(t, reqs)[k]);
    } else {
      ReplayItemsOrigin(t1, reqs[1..], k);
      var j :| 0 <= j < |reqs[1..]| && reqs[1..][j] == PostItem(Replay(t1, reqs[1..])[k]);
      assert reqs[j + 1] == reqs[1..][j];
    }
  }

  /** Reads leave the table alone: a run with no create in it changes nothing. */
  lemma {:induction false} ReplayReadsOnly(t: Table, reqs: seq<Request>)
    requires forall i :: 0 <= i < |reqs| ==> !reqs[i].PostItem?
    ensures Replay(t, reqs) == t
    decreases |reqs|
  {
    if reqs != [] {
      ReplayReadsOnly(t, reqs[1..]);
    }
  }

  /** Whatever has been served since start-up, ids 1 and 2 still answer with the seeded items and cannot be re-created. */
  lemma SeedSurvives(reqs: seq<Request>, name: string)
    ensures Lookup(Replay(Seed(), reqs), 1) == Ok(Item(1, "Alpha"))
    ensures Lookup(Replay(Seed(), reqs), 2) == Ok(Item(2, "Beta"))
    ensures Insert(Replay(Seed(), reqs), Item(1, name)).response == Err(AlreadyExists)
  {
    ReplayKeepsStored(Seed(), reqs, 1);
    ReplayKeepsStored(Seed(), reqs, 2);
  }

  /** A successful create is seen by the next read of that id; every other id reads as before. */
  lemma ReadAfterCreate(t: Table, item: Item, k: int)
    ensures Lookup(Insert(t, item).table, k) ==
              if k == item.id && item.id !in t then Ok(item) else Lookup(t, k)
  {
  }

  /** Repeating a create is rejected and leaves the table as the first one left it. */
  lemma CreateTwice(t: Table, item: Item)
    ensures Insert(Insert(t, item).table, item) == Created(Insert(t, item).table, Err(AlreadyExists))
  {
  }

  /** The first create of an id wins: a later create of the same id, with any name, changes nothing. */
  lemma FirstCreateWins(t: Table, a: Item, b: Item)
    requires a.id == b.id && a.id !in t
    ensures Insert(Insert(t, a).table, b).table == t[a.id := a]
    ensures Insert(Insert(t, a).table, b).response == Err(AlreadyExists)
  {
  }

  /** Creates of distinct ids commute. */
  lemma CreatesCommute(t: Table, a: Item, b: Item)
    requires a.id != b.id
    ensures Insert(Insert(t, a).table, b).table == Insert(Insert(t, b).table, a).table
  {
  }

  /** The root endpoint answers the same greeting on every table and leaves the table alone. */
  lemma RootIgnoresStore(t: Table)
    ensures Serve(t, GetRoot).table == t
    ensures Serve(t, GetRoot).response.RootResponse?
    ensures Serve(t, GetRoot).response.greeting.message == "Hello World"
  {
  }
}
