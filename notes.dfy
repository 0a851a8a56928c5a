/** A note of the in-memory store as a value, and the two pure steps the
    request handlers perform on one: building a fresh note (create) and
    patching a stored one (update). */
module Notes {

  datatype Option<+T> = None | Some(value: T)

  /** A scalar JSON value, as carried in a note's metadata. */
  datatype Value = Str(s: string) | Num(n: int) | Bool(b: bool) | Null

  /** An open mapping from string keys to values. */
  type Metadata = map<string, Value>

  /** Timestamps are milliseconds since the epoch, the value `new Date(iso)`
      gives back for an ISO string written by `toISOString`. */
  datatype Note = Note(
    id: string,
    title: string,
    content: string,
    metadata: Metadata,
    createdAt: nat,
    updatedAt: nat)

  /** What a handler answers: the note (HTTP 200), 400 or 404. */
  datatype Outcome = Ok(note: Note) | BadRequest | NotFound

  /** The title a note gets when none is supplied at creation. */
  const Untitled: string := "Untitled"

  /** JavaScript truthiness of an optional string field of a request body:
      present and not the empty string. */
  predicate Truthy(s: Option<string>)
  {
    s.Some? && s.value != ""
  }

  /** What every stored note satisfies: it has content and a title, and it
      was not updated before it was created. */
  ghost predicate WellFormed(n: Note)
  {
    n.content != "" && n.title != "" && n.createdAt <= n.updatedAt
  }

  /** `{ ...base, ...patch }`: a shallow merge in which the patch's keys win. */
  function Merge(base: Metadata, patch: Metadata): (m: Metadata)
    ensures m.Keys == base.Keys + patch.Keys
    ensures forall k :: k in patch ==> m[k] == patch[k]
    ensures forall k :: k in base && k !in patch ==> m[k] == base[k]
  {
    base + patch
  }

  /** The create handler once the id is generated and the clock has been read
      twice (first for `createdAt`, then for `updatedAt`). A missing or empty
      content is a bad request; a missing title becomes `Untitled`; a missing
      metadata becomes the empty mapping. */
  function NewNote(id: string, title: Option<string>, content: Option<string>,
                   metadata: Option<Metadata>, createdNow: nat, updatedNow: nat): (r: Outcome)
    ensures r.Ok? <==> Truthy(content)
    ensures !r.Ok? ==> r == BadRequest
    ensures r.Ok? ==> r.note.id == id && r.note.content == content.value
    ensures r.Ok? && Truthy(title) ==> r.note.title == title.value
    ensures r.Ok? && !Truthy(title) ==> r.note.title == Untitled
    ensures r.Ok? && metadata.Some? ==> r.note.metadata == metadata.value
    ensures r.Ok? && metadata.None? ==> r.note.metadata == map[]
    ensures r.Ok? ==> r.note.createdAt == createdNow && r.note.updatedAt == updatedNow
    ensures r.Ok? && createdNow <= updatedNow ==> WellFormed(r.note)
  {
    if !Truthy(content) then BadRequest
    else
      Ok(Note(id,
              if Truthy(title) then title.value else Untitled,
              content.value,
              if metadata.Some? then metadata.value else map[],
              createdNow,
              updatedNow))
  }

  /** The update handler on a stored note: title and content are overwritten
      only by truthy values, metadata is merged into the old one when
      supplied, and `updatedAt` is refreshed in every case. */
  function Patch(n: Note, title: Option<string>, content: Option<string>,
                 metadata: Option<Metadata>, now: nat): (r: Note)
    ensures r.id == n.id && r.createdAt == n.createdAt && r.updatedAt == now
    ensures Truthy(title) ==> r.title == title.value
    ensures !Truthy(title) ==> r.title == n.title
    ensures Truthy(content) ==> r.content == content.value
    ensures !Truthy(content) ==> r.content == n.content
    ensures metadata.None? ==> r.metadata == n.metadata
    ensures metadata.Some? ==> r.metadata.Keys == n.metadata.Keys + metadata.value.Keys
    ensures metadata.Some? ==> forall k :: k in metadata.value ==> r.metadata[k] == metadata.value[k]
    ensures metadata.Some? ==> forall k :: k in n.metadata && k !in metadata.value ==> r.metadata[k] == n.metadata[k]
    ensures WellFormed(n) && n.createdAt <= now ==> WellFormed(r)
  {
    n.(title := if Truthy(title) then title.value else n.title,
       content := if Truthy(content) then content.value else n.content,
       metadata := if metadata.Some? then Merge(n.metadata, metadata.value) else n.metadata,
       updatedAt := now)
  }

  /** An update with an empty body still refreshes `updatedAt` and changes
      nothing else. */
  lemma PatchNothing(n: Note, now: nat)
    ensures Patch(n, None, None, None, now) == n.(updatedAt := now)
  {
  }

  /** Sending the same update body twice at the same time is the same as
      sending it once. */
  lemma PatchIdempotent(n: Note, title: Option<string>, content: Option<string>,
                        metadata: Option<Metadata>, now: nat)
    ensures Patch(Patch(n, title, content, metadata, now), title, content, metadata, now)
         == Patch(n, title, content, metadata, now)
  {
  }

  /** Two metadata-only updates accumulate: the result is one update with the
      merge of the two patches, the later one winning on shared keys. */
  lemma PatchMetadataTwice(n: Note, first: Metadata, second: Metadata, t1: nat, t2: nat)
    ensures Patch(Patch(n, None, None, Some(first), t1), None, None, Some(second), t2)
         == Patch(n, None, None, Some(Merge(first, second)), t2)
  {
  }
}
