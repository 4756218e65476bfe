/** The collection endpoint (app/api/notes/route.js): `GET` lists every
    stored note newest first, `POST` creates one. The database is a
    sequence of notes in insertion order, owned by a `NoteStore`. */
module NotesRoute {
  import opened Wrappers
  import opened NoteSchema

  /** Ordered by `createdAt`, non-increasing: the order of `sort({ createdAt: -1 })`. */
  predicate NewestFirst(s: seq<Note>) {
    forall i, j :: 0 <= i < j < |s| ==> s[i].createdAt >= s[j].createdAt
  }

  /** Strictly increasing `createdAt`: the order in which the store inserts. */
  predicate CreationOrdered(s: seq<Note>) {
    forall i, j :: 0 <= i < j < |s| ==> s[i].createdAt < s[j].createdAt
  }

  /** A note no older than the head of a newest-first sequence may go
      before it. */
  lemma PrependNewest(h: Note, t: seq<Note>)
    requires NewestFirst(t)
    requires t == [] || h.createdAt >= t[0].createdAt
    ensures NewestFirst([h] + t)
  {
  }

  /** Puts `x` into a newest-first sequence ahead of the first note that is
      not newer than it. */
  function InsertByAge(x: Note, s: seq<Note>): (r: seq<Note>)
    requires NewestFirst(s)
    ensures NewestFirst(r)
    ensures multiset(r) == multiset(s) + multiset{x}
    ensures forall e :: e in r <==> e == x || e in s
    ensures |r| == |s| + 1 && (r[0] == x || (s != [] && r[0] == s[0]))
  {
    if s == [] || x.createdAt >= s[0].createdAt then
      PrependNewest(x, s);
      [x] + s
    else
      var rest := InsertByAge(x, s[1..]);
      assert multiset(s) == multiset{s[0]} + multiset(s[1..]) by {
        assert s == [s[0]] + s[1..];
      }
      assert forall e :: e in s <==> e == s[0] || e in s[1..];
      PrependNewest(s[0], rest);
      [s[0]] + rest
  }

  /** The listing order of `GET`: every stored note, newest first. */
  function SortNewestFirst(s: seq<Note>): (r: seq<Note>)
    ensures NewestFirst(r)
    ensures multiset(r) == multiset(s)
  {
    if s == [] then []
    else
      assert s == [s[0]] + s[1..];
      InsertByAge(s[0], SortNewestFirst(s[1..]))
  }

  function Reverse(s: seq<Note>): (r: seq<Note>)
    ensures |r| == |s|
    ensures forall k :: 0 <= k < |s| ==> r[k] == s[|s| - 1 - k]
  {
    if s == [] then [] else Reverse(s[1..]) + [s[0]]
  }

  /** A note older than everything in a newest-first sequence goes last. */
  lemma {:induction false} InsertOldest(x: Note, s: seq<Note>)
    requires NewestFirst(s)
    requires forall k :: 0 <= k < |s| ==> x.createdAt < s[k].createdAt
    ensures InsertByAge(x, s) == s + [x]
  {
    if s != [] {
      InsertOldest(x, s[1..]);
      assert s == [s[0]] + s[1..];
    }
  }

  /** Since the store inserts with increasing timestamps, the listing is the
      insertion order reversed: notes created A, B, C are listed C, B, A. */
  lemma {:induction false} ListingReversesCreation(s: seq<Note>)
    requires CreationOrdered(s)
    ensures SortNewestFirst(s) == Reverse(s)
  {
    if s != [] {
      ListingReversesCreation(s[1..]);
      InsertOldest(s[0], Reverse(s[1..]));
    }
  }

  /** Appending a note newer than every stored one keeps creation order. */
  lemma AppendNewestOrdered(s: seq<Note>, n: Note)
    requires CreationOrdered(s)
    requires forall k :: 0 <= k < |s| ==> s[k].createdAt < n.createdAt
    ensures CreationOrdered(s + [n])
  {
  }

  lemma ReverseAppend(s: seq<Note>, n: Note)
    ensures Reverse(s + [n]) == [n] + Reverse(s)
  {
  }

  /** Appending a note newer than every stored one puts it at the head of
      the listing and leaves the rest of the listing as it was. */
  lemma AppendNewest(s: seq<Note>, n: Note)
    requires CreationOrdered(s)
    requires forall k :: 0 <= k < |s| ==> s[k].createdAt < n.createdAt
    ensures CreationOrdered(s + [n])
    ensures SortNewestFirst(s + [n]) == [n] + SortNewestFirst(s)
  {
    AppendNewestOrdered(s, n);
    ListingReversesCreation(s);
    ListingReversesCreation(s + [n]);
    ReverseAppend(s, n);
  }

  /** No two notes share an identifier. */
  predicate DistinctIds(s: seq<Note>) {
    forall i, j :: 0 <= i < j < |s| ==> s[i].id != s[j].id
  }

  /** A note whose identifier no stored note has keeps the identifiers
      distinct when appended. */
  lemma AppendFreshId(s: seq<Note>, n: Note)
    requires DistinctIds(s)
    requires forall k :: 0 <= k < |s| ==> s[k].id != n.id
    ensures DistinctIds(s + [n])
  {
  }

  /** The notes collection, in insertion order, with the clock that stamps
      `createdAt` and the counter that hands out identifiers. */
  class NoteStore {
    var notes: seq<Note>
    var clock: nat
    var nextId: nat

    ghost predicate Valid()
      reads this
    {
      && CreationOrdered(notes)
      && DistinctIds(notes)
      && (forall i :: 0 <= i < |notes| ==>
            WellFormed(notes[i]) && notes[i].createdAt < clock && notes[i].id < nextId)
    }

    constructor ()
      ensures Valid() && notes == []
    {
      notes, clock, nextId := [], 0, 0;
    }

    /** `GET`: all stored notes and only those, newest first, which for
        this store is the insertion order reversed. */
    method Get() returns (r: seq<Note>)
      requires Valid()
      ensures multiset(r) == multiset(notes)
      ensures NewestFirst(r)
      ensures r == Reverse(notes)
    {
      r := SortNewestFirst(notes);
      ListingReversesCreation(notes);
    }

    /** `POST`: creates a note from the title, content and tags of the parsed
        JSON body, any of which may be missing (absent tags become []); the
        body's `archived` is ignored and the note is never archived. Returns
        the note; a body the schema rejects leaves the store as it was. */
    method Post(body: NoteFields) returns (r: Result<Note, ValidationError>)
      requires Valid()
      modifies this
      ensures Valid()
      ensures r.Ok? <==> RequiredString(body.title) && RequiredString(body.content)
      ensures r.Err? ==> r.error.failed != {} && notes == old(notes)
      ensures r.Ok? ==> && r.value.title == body.title.value
                        && r.value.content == body.content.value
                        && r.value.tags == body.tags.GetOr([])
                        && !r.value.archived
      ensures r.Ok? ==> notes == old(notes) + [r.value]
      ensures r.Ok? ==> forall i :: 0 <= i < |old(notes)| ==> old(notes)[i].id != r.value.id
      ensures r.Ok? ==> SortNewestFirst(notes) == [r.value] + SortNewestFirst(old(notes))
    {
      var fields := NoteFields(body.title, body.content, Some(body.tags.GetOr([])), Some(false));
      r := Create(fields, nextId, clock);
      if r.Ok? {
        var n := r.value;
        AppendNewest(notes, n);
        AppendFreshId(notes, n);
        var before := notes;
        notes := notes + [n];
        clock, nextId := clock + 1, nextId + 1;
        forall i | 0 <= i < |notes|
          ensures WellFormed(notes[i]) && notes[i].createdAt < clock && notes[i].id < nextId
        {
          if i < |before| {
            assert notes[i] == before[i];
          }
        }
      }
    }
  }
}
