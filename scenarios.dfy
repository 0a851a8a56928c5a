/** Client sequences against a fresh store: what a caller of the HTTP API can
    rely on, derived from the contracts of `Create` and `Update` and the
    definitions of the read-only functions. */
module Scenarios {
  import opened Notes
  import opened Recency
  import opened NoteStore

  /** A note created with content only is stored under its id with the default
      title and empty metadata, and reading it back gives the same note. */
  method CreateThenGet(id: string, t: nat) returns (created: Outcome, fetched: Outcome)
    ensures created.Ok? && fetched == created
    ensures created.note.id == id
    ensures created.note.title == Untitled && created.note.content == "hello"
    ensures created.note.metadata == map[]
    ensures created.note.createdAt == t && created.note.updatedAt == t
  {
    var store := new Store();
    created := store.Create(id, None, Some("hello"), None, t, t);
    fetched := store.Get(id);
  }

  /** Create stores a note exactly when the content is truthy; otherwise the
      answer is 400 and the store stays empty. */
  method CreateNeedsContent(id: string, title: Option<string>, content: Option<string>, t: nat)
    returns (r: Outcome, count: nat)
    ensures r == BadRequest <==> !Truthy(content)
    ensures count == if Truthy(content) then 1 else 0
  {
    var store := new Store();
    r := store.Create(id, title, content, None, t, t);
    count := store.Count();
  }

  /** Updating the content only leaves the title alone, keeps `createdAt`
      and moves `updatedAt` to the time of the update. */
  method UpdateContentOnly(id: string, t1: nat, t2: nat) returns (r: Outcome)
    requires t1 <= t2
    ensures r.Ok? && r.note.content == "v2" && r.note.title == "T"
    ensures r.note.createdAt == t1 && r.note.updatedAt == t2
  {
    var store := new Store();
    var _ := store.Create(id, Some("T"), Some("v1"), None, t1, t1);
    r := store.Update(id, None, Some("v2"), None, t2);
  }

  /** Two metadata updates accumulate instead of replacing each other. */
  method MetadataAccumulates(id: string, t1: nat, t2: nat, t3: nat) returns (r: Outcome)
    requires t1 <= t2 <= t3
    ensures r.Ok? && r.note.metadata == map["a" := Num(1), "b" := Num(2)]
  {
    var store := StoreWithOne(id, "x", t1);
    var u := store.Update(id, None, None, Some(map["a" := Num(1)]), t2);
    ghost var first := u.note.metadata;
    assert first == map["a" := Num(1)];
    r := store.Update(id, None, None, Some(map["b" := Num(2)]), t3);
    assert r.note.metadata == first + map["b" := Num(2)];
  }

  /** Unknown ids are not found by get or update, and the failed update leaves
      the listing as it was. */
  method UnknownId(a: string, b: string, t1: nat, t2: nat)
    returns (got: Outcome, updated: Outcome, before: seq<Note>, after: seq<Note>)
    requires a != b && t1 <= t2
    ensures got == NotFound && updated == NotFound
    ensures after == before && |after| == 1 && after[0].id == a
  {
    var store := new Store();
    var _ := store.Create(a, None, Some("x"), None, t1, t1);
    before := store.List();
    got := store.Get(b);
    updated := store.Update(b, Some("y"), Some("y"), None, t2);
    after := store.List();
    assert |after| == |multiset(after)| == 1;
    assert after[0] in after;
  }

  /** A store holding the one note created from `content` at time `t`. */
  method StoreWithOne(id: string, content: string, t: nat) returns (store: Store)
    requires content != ""
    ensures fresh(store) && store.Valid() && store.lastTime == t
    ensures store.order == [id] && store.notes == map[id := Note(id, Untitled, content, map[], t, t)]
  {
    store := new Store();
    var _ := store.Create(id, None, Some(content), None, t, t);
  }

  /** Creating A, then B, then updating A: A was updated last. */
  method CreateCreateUpdate(a: string, b: string, t1: nat, t2: nat, t3: nat) returns (store: Store)
    requires a != b && t1 <= t2 <= t3
    ensures fresh(store) && store.Valid()
    ensures store.order == [a, b] && a in store.notes && b in store.notes
    ensures store.notes[a].updatedAt == t3 && store.notes[b].updatedAt == t2
  {
    store := StoreWithOne(a, "A", t1);
    var created := store.Create(b, None, Some("B"), None, t2, t2);
    assert created.Ok? && store.order == [a, b];
    var updated := store.Update(a, None, Some("A2"), None, t3);
    assert updated.Ok? && updated.note.updatedAt == t3;
  }

  /** Creating A, then B, then updating A lists A before B, also when the
      three clock readings coincide. */
  method UpdateMovesToFront(a: string, b: string, t1: nat, t2: nat, t3: nat) returns (listed: seq<Note>)
    requires a != b && t1 <= t2 <= t3
    ensures |listed| == 2 && listed[0].id == a && listed[1].id == b
  {
    var store := CreateCreateUpdate(a, b, t1, t2, t3);
    ghost var first, second := store.notes[a], store.notes[b];
    assert store.Values() == [first, second] by {
      assert ValuesIn([a, b], store.notes) == [first] + ValuesIn([b], store.notes);
    }
    ListKeepsSortedOrder(store);
    listed := store.List();
  }
}
