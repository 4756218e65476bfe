/** The note document and the rules its schema enforces when a document is
    created or updated (models/Note.ts). Timestamps are readings of a
    natural-number clock supplied by the caller. */
module NoteSchema {
  import opened Wrappers

  /** A stored note. `id` is the identifier the store assigns. */
  datatype Note = Note(
    id: nat,
    title: string,
    content: string,
    tags: seq<string>,
    archived: bool,
    createdAt: nat,
    updatedAt: nat)

  /** The fields handed to the model when a document is created or updated;
      each may be absent. */
  datatype NoteFields = NoteFields(
    title: Option<string>,
    content: Option<string>,
    tags: Option<seq<string>>,
    archived: Option<bool>)

  /** The schema paths that carry a `required` validator. */
  datatype RequiredPath = TitlePath | ContentPath

  /** A validation failure names every required path that failed. */
  datatype ValidationError = ValidationError(failed: set<RequiredPath>)

  /** `required: true` on a String path: the value is present and not "". */
  predicate RequiredString(v: Option<string>) {
    v.Some? && v.value != ""
  }

  /** The paths of `f` whose required validator fails. */
  function FailedPaths(f: NoteFields): set<RequiredPath> {
    (if RequiredString(f.title) then {} else {TitlePath})
    + (if RequiredString(f.content) then {} else {ContentPath})
  }

  /** What every document created through the schema satisfies. */
  predicate WellFormed(n: Note) {
    n.title != "" && n.content != "" && n.createdAt <= n.updatedAt
  }

  /** `Note.create(fields)` at time `now`, the store having chosen `id`:
      rejects a missing or empty title or content (reporting each failing
      path), otherwise fills the `tags` and `archived` defaults and sets both
      timestamps to `now`. */
  function Create(f: NoteFields, id: nat, now: nat): (r: Result<Note, ValidationError>)
    ensures r.Err? <==> f.title.None? || f.title == Some("") || f.content.None? || f.content == Some("")
    ensures r.Err? ==> (TitlePath in r.error.failed <==> !RequiredString(f.title))
    ensures r.Err? ==> (ContentPath in r.error.failed <==> !RequiredString(f.content))
    ensures r.Ok? ==> WellFormed(r.value) && r.value.id == id
    ensures r.Ok? ==> r.value.title == f.title.value && r.value.content == f.content.value
    ensures r.Ok? ==> r.value.tags == (if f.tags.Some? then f.tags.value else [])
    ensures r.Ok? ==> (r.value.archived <==> f.archived == Some(true))
    ensures r.Ok? ==> r.value.createdAt == now && r.value.updatedAt == now
  {
    var failed := FailedPaths(f);
    if failed != {} then
      Err(ValidationError(failed))
    else
      Ok(Note(id, f.title.value, f.content.value, f.tags.GetOr([]), f.archived.GetOr(false), now, now))
  }

  /** An update at time `now`: the given fields replace the stored ones, the
      others are kept; `updatedAt` becomes `now`, and the identifier and
      `createdAt` never change. */
  function ApplyUpdate(n: Note, f: NoteFields, now: nat): (r: Note)
    ensures r.id == n.id && r.createdAt == n.createdAt && r.updatedAt == now
    ensures r.title == (if f.title.Some? then f.title.value else n.title)
    ensures r.content == (if f.content.Some? then f.content.value else n.content)
    ensures r.tags == (if f.tags.Some? then f.tags.value else n.tags)
    ensures r.archived == (if f.archived.Some? then f.archived.value else n.archived)
  {
    n.(title := f.title.GetOr(n.title),
       content := f.content.GetOr(n.content),
       tags := f.tags.GetOr(n.tags),
       archived := f.archived.GetOr(n.archived),
       updatedAt := now)
  }
}
