/** The process-wide note store: a JavaScript `Map` from id to note, and the
    create, get, update, list and count operations the request handlers
    perform on it. */
module NoteStore {
  import opened Notes
  import opened Recency

  /** No key occurs twice. */
  ghost predicate Distinct(ids: seq<string>)
  {
    forall i, j :: 0 <= i < j < |ids| ==> ids[i] != ids[j]
  }

  /** The values of `notes` taken in the order of `ids`:
      `Array.from(notes.values())` when `ids` is the Map's insertion order. */
  function ValuesIn(ids: seq<string>, notes: map<string, Note>): (r: seq<Note>)
    requires forall k :: k in ids ==> k in notes
    ensures |r| == |ids|
    ensures forall i :: 0 <= i < |ids| ==> r[i] == notes[ids[i]]
  {
    if ids == [] then []
    else [notes[ids[0]]] + ValuesIn(ids[1..], notes)
  }

  lemma {:induction false} DistinctCardinality(ids: seq<string>)
    requires Distinct(ids)
    ensures |set k | k in ids| == |ids|
  {
    if ids != [] {
      var rest := ids[1..];
      assert Distinct(rest);
      DistinctCardinality(rest);
      assert (set k | k in ids) == (set k | k in rest) + {ids[0]};
      assert ids[0] !in rest;
    }
  }

  /** What the store keeps true of its Map: each key once in the iteration
      order, exactly the keys of the entries, every note stored under its own
      id, well formed, and not updated after the latest clock reading. */
  ghost predicate Consistent(order: seq<string>, notes: map<string, Note>, lastTime: nat)
  {
    && Distinct(order)
    && (forall k :: k in order <==> k in notes)
    && (forall k :: k in notes ==> notes[k].id == k && WellFormed(notes[k]) && notes[k].updatedAt <= lastTime)
  }

  /** `Map.set(n.id, n)` with a well-formed note read at a later clock keeps
      the store consistent: a new key goes to the end of the iteration order,
      an existing key keeps its place. */
  lemma SetKeepsConsistent(order: seq<string>, notes: map<string, Note>, lastTime: nat, n: Note, now: nat)
    requires Consistent(order, notes, lastTime)
    requires WellFormed(n) && n.updatedAt <= now && lastTime <= now
    ensures Consistent(if n.id in notes then order else order + [n.id], notes[n.id := n], now)
  {
  }

  class Store {
    /** The Map's keys in insertion order, the order in which it iterates. */
    var order: seq<string>
    /** The Map's entries. */
    var notes: map<string, Note>
    /** The latest clock reading stored in a note so far. The clock is
        assumed never to run backwards, so every create and update is handed
        readings no earlier than this one. */
    ghost var lastTime: nat

    ghost predicate Valid()
      reads this
    {
      Consistent(order, notes, lastTime)
    }

    /** The store at start-up holds no note. */
    constructor ()
      ensures Valid()
      ensures order == [] && notes == map[] && lastTime == 0
    {
      order := [];
      notes := map[];
      lastTime := 0;
    }

    /** `POST /api/notes` with the id `generateId()` produced and the two
        clock readings taken for `createdAt` and `updatedAt`. `Map.set` on a
        key already present replaces its value and keeps its place in the
        iteration order. */
    method Create(id: string, title: Option<string>, content: Option<string>,
                  metadata: Option<Metadata>, createdNow: nat, updatedNow: nat) returns (r: Outcome)
      requires Valid()
      requires lastTime <= createdNow <= updatedNow
      modifies this
      ensures Valid()
      ensures r == NewNote(id, title, content, metadata, createdNow, updatedNow)
      ensures r.BadRequest? ==> notes == old(notes) && order == old(order) && lastTime == old(lastTime)
      ensures r.Ok? ==> notes == old(notes)[id := r.note] && lastTime == updatedNow
      ensures r.Ok? ==> order == if id in old(notes) then old(order) else old(order) + [id]
      ensures r.Ok? ==> forall k :: k in old(notes) && k != id ==> k in notes && notes[k] == old(notes)[k]
    {
      if !Truthy(content) {
        return BadRequest;
      }
      var note := Note(id,
                       if Truthy(title) then title.value else Untitled,
                       content.value,
                       if metadata.Some? then metadata.value else map[],
                       createdNow,
                       updatedNow);
      assert Ok(note) == NewNote(id, title, content, metadata, createdNow, updatedNow);
      SetKeepsConsistent(order, notes, lastTime, note, updatedNow);
      if id !in notes {
        order := order + [id];
      }
      notes := notes[id := note];
      lastTime := updatedNow;
      r := Ok(note);
    }

    /** `GET /api/notes/:id`, and the lookup of the HTML view: a read that
        changes nothing. */
    function Get(id: string): (r: Outcome)
      reads this
      ensures r.NotFound? <==> id !in notes
      ensures r.Ok? <==> id in notes
      ensures r.Ok? ==> r.note == notes[id]
      ensures Valid() && r.Ok? ==> r.note.id == id && WellFormed(r.note)
    {
      if id in notes then Ok(notes[id]) else NotFound
    }

    /** `PUT /api/notes/:id` with the clock reading taken for `updatedAt`.
        The stored note is patched in place, so it keeps its place in the
        iteration order. */
    method Update(id: string, title: Option<string>, content: Option<string>,
                  metadata: Option<Metadata>, now: nat) returns (r: Outcome)
      requires Valid()
      requires lastTime <= now
      modifies this
      ensures Valid()
      ensures order == old(order)
      ensures id !in old(notes) ==> r == NotFound && notes == old(notes) && lastTime == old(lastTime)
      ensures id in old(notes) ==> r == Ok(Patch(old(notes)[id], title, content, metadata, now))
      ensures id in old(notes) ==> notes == old(notes)[id := r.note] && lastTime == now
      ensures forall k :: k in old(notes) && k != id ==> k in notes && notes[k] == old(notes)[k]
    {
      if id !in notes {
        return NotFound;
      }
      var note := notes[id];
      if Truthy(title) {
        note := note.(title := title.value);
      }
      if Truthy(content) {
        note := note.(content := content.value);
      }
      if metadata.Some? {
        note := note.(metadata := Merge(note.metadata, metadata.value));
      }
      note := note.(updatedAt := now);
      assert note == Patch(notes[id], title, content, metadata, now);
      SetKeepsConsistent(order, notes, lastTime, note, now);
      notes := notes[id := note];
      lastTime := now;
      r := Ok(note);
    }

    /** The stored notes in the Map's iteration order. */
    function Values(): (r: seq<Note>)
      reads this
      requires Valid()
      ensures |r| == |order|
      ensures forall i :: 0 <= i < |order| ==> r[i] == notes[order[i]]
      ensures forall n: Note :: n in r <==> n.id in notes && notes[n.id] == n
    {
      var r := ValuesIn(order, notes);
      assert forall n: Note :: n.id in notes && notes[n.id] == n ==> n in r by {
        forall n: Note | n.id in notes && notes[n.id] == n ensures n in r {
          var i :| 0 <= i < |order| && order[i] == n.id;
          assert r[i] == n;
        }
      }
      r
    }

    /** `GET /api/notes`: every stored note exactly once, most recently updated
        first, notes updated at the same millisecond in insertion order. */
    function List(): (r: seq<Note>)
      reads this
      requires Valid()
      ensures multiset(r) == multiset(Values())
      ensures forall n: Note :: n in r <==> n.id in notes && notes[n.id] == n
      ensures Descending(r)
      ensures forall t :: At(r, t) == At(Values(), t)
    {
      var r := SortByRecency(Values());
      assert forall n :: n in r <==> n in Values() by {
        forall n ensures n in r <==> n in Values() {
          assert n in r <==> n in multiset(r);
          assert n in Values() <==> n in multiset(Values());
        }
      }
      assert forall t :: At(r, t) == At(Values(), t) by {
        forall t ensures At(r, t) == At(Values(), t) {
          SortKeepsTies(Values(), t);
        }
      }
      r
    }

    /** `notes.size`, shown on the landing page: the number of notes the list
        handler returns. */
    function Count(): (n: nat)
      reads this
      requires Valid()
      ensures n == |List()|
    {
      DistinctCardinality(order);
      assert (set k | k in order) == notes.Keys;
      assert |List()| == |multiset(Values())| == |order|;
      |notes|
    }
  }

  /** When the insertion order is already most recent first, listing returns
      the notes in insertion order. */
  lemma ListKeepsSortedOrder(store: Store)
    requires store.Valid()
    requires Descending(store.Values())
    ensures store.List() == store.Values()
  {
    StableOrderUnique(store.List(), store.Values());
  }
}
