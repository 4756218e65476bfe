/** The browser-side controller of the notes page (app/page.tsx): the
    component state, the handlers that change it, and the pure transforms
    they use. A handler's network traffic is returned as the list of
    requests it sends, and the responses it waits for are parameters. */
module HomePage {
  import opened Wrappers
  import opened Text
  import opened Sequences

  /** A note as the page holds it; `archived` may be missing from the JSON. */
  datatype NoteView = NoteView(
    id: string,
    title: string,
    content: string,
    tags: seq<string>,
    archived: Option<bool>)

  /** The JSON body of a create or update request. */
  datatype NoteBody = NoteBody(title: string, content: string, tags: seq<string>, archived: bool)

  /** The requests the page sends. */
  datatype Request =
    | ListNotes                           // GET /api/notes
    | SearchNotes(q: string)              // GET /api/notes/search?q=...
    | PostNote(body: NoteBody)            // POST /api/notes
    | PutNote(id: string, body: NoteBody) // PUT /api/notes/{id}
    | DeleteNote(id: string)              // DELETE /api/notes/{id}

  /** The message shown when title or content is blank. */
  const RequiredMessage: string := "⚠️ El título y el contenido son obligatorios."

  /** The truthiness of `note.archived`: a missing flag is false. */
  predicate IsArchived(n: NoteView) {
    n.archived == Some(true)
  }

  /** `!title.trim() || !content.trim()`: the check both create and update
      make before sending anything. */
  predicate Blank(title: string, content: string): (b: bool)
    ensures b <==> Trim(title) == "" || Trim(content) == ""
  {
    IsBlank(title) || IsBlank(content)
  }

  /** `tags.split(",").map((t) => t.trim())`: the tag list the page sends. */
  function EntryTags(tags: string): seq<string> {
    TrimEach(Split(tags, ','))
  }

  /** The page drops no piece: one tag per comma plus one, each the trimmed
      piece; so an empty or blank tag field is sent as `[""]`. */
  lemma EntryTagsKeepEveryPiece(tags: string)
    ensures |EntryTags(tags)| == multiset(tags)[','] + 1
    ensures forall k :: 0 <= k < |EntryTags(tags)| ==> EntryTags(tags)[k] == Trim(Split(tags, ',')[k])
    ensures IsBlank(tags) ==> EntryTags(tags) == [""]
  {
    SplitLength(tags, ',');
    if IsBlank(tags) {
      BlankHasNoComma(tags);
      SplitWithoutSeparator(tags, ',');
    }
  }

  /** A space after a comma is trimmed away with the piece it starts. */
  lemma EntryTagsLeadingSpace(j: string)
    ensures EntryTags([' '] + j) == EntryTags(j)
  {
    var sj, sp := Split(j, ','), Split([' '] + j, ',');
    assert sp == [[' '] + sj[0]] + sj[1..] by {
      SplitPrefix([' '], j, ',');
    }
    var r, e := TrimEach(sp), TrimEach(sj);
    assert r[0] == e[0] by {
      TrimLeadingSpace(sj[0]);
    }
    forall k | 0 < k < |r| ensures r[k] == e[k] {
      assert sp[k] == sj[k];
    }
  }

  /** The tags of `a, b` (a comma and a space between) are the tags of `a`
      followed by the tags of `b`. */
  lemma EntryTagsAtComma(a: string, b: string)
    ensures EntryTags(a + ", " + b) == EntryTags(a) + EntryTags(b)
  {
    assert a + ", " + b == a + [','] + ([' '] + b);
    SplitAtSeparator(a, [' '] + b, ',');
    TrimEachAppend(Split(a, ','), Split([' '] + b, ','));
    EntryTagsLeadingSpace(b);
  }

  /** A tag that survives the edit round trip: no comma inside and no
      whitespace around it. */
  predicate CleanTag(t: string) {
    ',' !in t && Trim(t) == t
  }

  /** A clean tag is its own tag list. */
  lemma CleanTagAlone(t: string)
    requires CleanTag(t)
    ensures EntryTags(t) == [t]
  {
    SplitWithoutSeparator(t, ',');
  }

  /** Joining one more clean tag in front puts it in front of the tags. */
  lemma EntryTagsJoinFront(t: string, rest: seq<string>)
    requires CleanTag(t) && rest != []
    ensures EntryTags(Join([t] + rest, ", ")) == [t] + EntryTags(Join(rest, ", "))
  {
    assert ([t] + rest)[1..] == rest;
    CleanTagAlone(t);
    EntryTagsAtComma(t, Join(rest, ", "));
  }

  /** `openEdit` fills the tag field with `tags.join(", ")` and `updateNote`
      splits and trims it again: a tag list whose tags hold no comma and no
      surrounding whitespace comes back unchanged, except that no tags at
      all comes back as `[""]`. */
  lemma {:induction false} EditTagsRoundTrip(ts: seq<string>)
    requires forall k :: 0 <= k < |ts| ==> CleanTag(ts[k])
    ensures EntryTags(Join(ts, ", ")) == if ts == [] then [""] else ts
  {
    if |ts| == 1 {
      CleanTagAlone(ts[0]);
    } else if |ts| > 1 {
      var rest := ts[1..];
      EditTagsRoundTrip(rest);
      EntryTagsJoinFront(ts[0], rest);
      assert ts == [ts[0]] + rest;
    }
  }

  /** The quick-tag buttons: `tag` alone when the field trims to "",
      otherwise appended after ", ". */
  function AppendedTag(current: string, tag: string): string {
    if IsBlank(current) then tag else current + ", " + tag
  }

  /** A quick tag adds exactly one tag, `tag` trimmed, after the ones
      already typed (or replaces a blank field). */
  lemma AppendedTagAddsOne(current: string, tag: string)
    requires ',' !in tag
    ensures EntryTags(AppendedTag(current, tag))
         == (if IsBlank(current) then [] else EntryTags(current)) + [Trim(tag)]
  {
    SplitWithoutSeparator(tag, ',');
    if !IsBlank(current) {
      EntryTagsAtComma(current, tag);
    }
  }

  /** The tags offered as quick-tag buttons on both forms. */
  const QuickTags: seq<string> := ["importante", "trabajo", "personal", "urgente", "ideas"]

  /** A quick-tag button adds its tag, unchanged, as the last tag the page
      will send. */
  lemma QuickTagArrivesIntact(current: string, i: nat)
    requires i < |QuickTags|
    ensures EntryTags(AppendedTag(current, QuickTags[i]))
         == (if IsBlank(current) then [] else EntryTags(current)) + [QuickTags[i]]
  {
    var tag := QuickTags[i];
    assert ',' !in tag && !IsWhitespace(tag[0]) && !IsWhitespace(tag[|tag| - 1]);
    TrimOfTrimmed(tag);
    AppendedTagAddsOne(current, tag);
  }

  /** The archive toggle's local update: each note whose id is `id` has its
      flag negated (a missing flag counts as false); nothing else changes. */
  function Toggled(ns: seq<NoteView>, id: string): (r: seq<NoteView>)
    ensures |r| == |ns|
    ensures forall i :: 0 <= i < |ns| && ns[i].id != id ==> r[i] == ns[i]
    ensures forall i :: 0 <= i < |ns| && ns[i].id == id ==>
              r[i] == ns[i].(archived := Some(!IsArchived(ns[i])))
  {
    seq(|ns|, i requires 0 <= i < |ns| =>
      if ns[i].id == id then ns[i].(archived := Some(!IsArchived(ns[i]))) else ns[i])
  }

  /** Whether a note shows in the archived view (`note.archived === true`)
      or in the active view (`!note.archived`). */
  predicate InView(n: NoteView, viewArchived: bool) {
    IsArchived(n) == viewArchived
  }

  /** `filteredNotes`: the notes of the current view, in list order. */
  function View(ns: seq<NoteView>, viewArchived: bool): (r: seq<NoteView>)
    ensures forall n :: n in r <==> n in ns && InView(n, viewArchived)
    ensures IsSubsequence(r, ns)
  {
    if ns == [] then []
    else
      assert ns == [ns[0]] + ns[1..];
      var rest := View(ns[1..], viewArchived);
      assert rest != [] ==> rest[0] in rest;
      if InView(ns[0], viewArchived) then [ns[0]] + rest else rest
  }

  /** The two views split the list: together they hold each note exactly as
      often as the list does, no note is in both, and a note without a flag
      is active. */
  lemma {:induction false} ViewsPartition(ns: seq<NoteView>)
    ensures multiset(View(ns, false)) + multiset(View(ns, true)) == multiset(ns)
    ensures forall n :: !(n in View(ns, false) && n in View(ns, true))
    ensures forall n :: n in ns && n.archived.None? ==> n in View(ns, false)
  {
    if ns != [] {
      var t := ns[1..];
      assert multiset(View(t, false)) + multiset(View(t, true)) == multiset(t) by {
        ViewsPartition(t);
      }
      assert ns == [ns[0]] + t;
    }
  }

  /** Toggling the same note twice leaves the archived view as it was. */
  lemma {:induction false} ToggleTwiceKeepsArchivedView(ns: seq<NoteView>, id: string)
    ensures View(Toggled(Toggled(ns, id), id), true) == View(ns, true)
  {
    if ns != [] {
      var once := Toggled(ns, id);
      var twice := Toggled(once, id);
      ToggleTwiceKeepsArchivedView(ns[1..], id);
      assert once[1..] == Toggled(ns[1..], id);
      assert twice[1..] == Toggled(Toggled(ns[1..], id), id);
      assert InView(twice[0], true) == InView(ns[0], true);
      assert InView(ns[0], true) ==> twice[0] == ns[0];
    }
  }

  /** The page component's state (the `useState` hooks). Typing in an
      input assigns the matching field directly. */
  class Home {
    var notes: seq<NoteView>
    var search: string
    var hasSearched: bool
    var error: string
    var viewArchived: bool
    var title: string
    var content: string
    var tags: string
    var editingNote: Option<NoteView>
    var editTitle: string
    var editContent: string
    var editTags: string

    /** The initial state, before the first load. */
    constructor ()
      ensures notes == [] && search == "" && !hasSearched && error == "" && !viewArchived
      ensures title == "" && content == "" && tags == ""
      ensures editingNote == None && editTitle == "" && editContent == "" && editTags == ""
    {
      notes, search, hasSearched, error, viewArchived := [], "", false, "", false;
      title, content, tags := "", "", "";
      editingNote, editTitle, editContent, editTags := None, "", "", "";
    }

    /** `filteredNotes` for the current view. */
    function FilteredNotes(): (r: seq<NoteView>)
      reads this
      ensures forall n :: n in r <==> n in notes && InView(n, viewArchived)
    {
      View(notes, viewArchived)
    }

    /** `loadNotes`: the list becomes the server's listing and the page is
        no longer showing search results. */
    method LoadNotes(listing: seq<NoteView>) returns (sent: seq<Request>)
      modifies this`notes, this`hasSearched
      ensures sent == [ListNotes]
      ensures notes == listing && !hasSearched
    {
      sent := [ListNotes];
      notes, hasSearched := listing, false;
    }

    /** `executeSearch`: a blank search box reloads the full listing;
        otherwise the raw search text is sent and the list becomes exactly
        the results. */
    method ExecuteSearch(listing: seq<NoteView>, found: seq<NoteView>) returns (sent: seq<Request>)
      modifies this`notes, this`hasSearched
      ensures IsBlank(search) ==> sent == [ListNotes] && notes == listing && !hasSearched
      ensures !IsBlank(search) ==> sent == [SearchNotes(search)] && notes == found && hasSearched
    {
      if IsBlank(search) {
        sent := LoadNotes(listing);
        return;
      }
      sent := [SearchNotes(search)];
      notes, hasSearched := found, true;
    }

    /** `handleKeyDown`: Enter in the search box runs the search. */
    method HandleKeyDown(key: string, listing: seq<NoteView>, found: seq<NoteView>) returns (sent: seq<Request>)
      modifies this`notes, this`hasSearched
      ensures key != "Enter" ==> sent == [] && notes == old(notes) && hasSearched == old(hasSearched)
      ensures key == "Enter" && IsBlank(search) ==> sent == [ListNotes] && notes == listing && !hasSearched
      ensures key == "Enter" && !IsBlank(search) ==> sent == [SearchNotes(search)] && notes == found && hasSearched
    {
      sent := [];
      if key == "Enter" {
        sent := ExecuteSearch(listing, found);
      }
    }

    /** The reload after a delete or an update: through the search while
        search results are shown, through the full listing otherwise. */
    method Reload(listing: seq<NoteView>, found: seq<NoteView>) returns (sent: seq<Request>)
      modifies this`notes, this`hasSearched
      ensures var searching := old(hasSearched) && !IsBlank(search);
        && sent == [if searching then SearchNotes(search) else ListNotes]
        && notes == (if searching then found else listing)
        && hasSearched == searching
    {
      if hasSearched {
        sent := ExecuteSearch(listing, found);
      } else {
        sent := LoadNotes(listing);
      }
    }

    /** `createNote`: with a blank title or content it only sets the error;
        otherwise it clears the error, posts the typed title and content with
        the comma-split, trimmed tags and `archived: false`, empties the
        three inputs and reloads the full listing. */
    method CreateNote(listing: seq<NoteView>) returns (sent: seq<Request>)
      modifies this`error, this`title, this`content, this`tags, this`notes, this`hasSearched
      ensures Blank(old(title), old(content)) ==>
        && sent == [] && error == RequiredMessage
        && title == old(title) && content == old(content) && tags == old(tags)
        && notes == old(notes) && hasSearched == old(hasSearched)
      ensures !Blank(old(title), old(content)) ==>
        && sent == [PostNote(NoteBody(old(title), old(content), EntryTags(old(tags)), false)), ListNotes]
        && error == "" && title == "" && content == "" && tags == ""
        && notes == listing && !hasSearched
    {
      if Blank(title, content) {
        error := RequiredMessage;
        sent := [];
        return;
      }
      error := "";
      var body := NoteBody(title, content, EntryTags(tags), false);
      title, content, tags := "", "", "";
      var reload := LoadNotes(listing);
      sent := [PostNote(body)] + reload;
    }

    /** `deleteNote`: nothing happens unless the user confirms; then the
        note is deleted and the list reloaded as after any change. */
    method DeleteNote(id: string, confirmed: bool, listing: seq<NoteView>, found: seq<NoteView>)
      returns (sent: seq<Request>)
      modifies this`notes, this`hasSearched
      ensures !confirmed ==> sent == [] && notes == old(notes) && hasSearched == old(hasSearched)
      ensures confirmed ==>
        var searching := old(hasSearched) && !IsBlank(search);
        && sent == [Request.DeleteNote(id), if searching then SearchNotes(search) else ListNotes]
        && notes == (if searching then found else listing)
        && hasSearched == searching
    {
      if !confirmed {
        sent := [];
        return;
      }
      var reload := Reload(listing, found);
      sent := [Request.DeleteNote(id)] + reload;
    }

    /** `toggleArchive`: sends the note with its flag negated, then flips
        the flag of every listed note with that id, whatever the response. */
    method ToggleArchive(note: NoteView) returns (sent: seq<Request>)
      modifies this`notes
      ensures sent == [PutNote(note.id, NoteBody(note.title, note.content, note.tags, !IsArchived(note)))]
      ensures notes == Toggled(old(notes), note.id)
    {
      sent := [PutNote(note.id, NoteBody(note.title, note.content, note.tags, !IsArchived(note)))];
      notes := Toggled(notes, note.id);
    }

    /** `openEdit`: clears the error, remembers the note and fills the edit
        inputs, the tags joined with ", ". */
    method OpenEdit(note: NoteView)
      modifies this`error, this`editingNote, this`editTitle, this`editContent, this`editTags
      ensures error == "" && editingNote == Some(note)
      ensures editTitle == note.title && editContent == note.content
      ensures editTags == Join(note.tags, ", ")
    {
      error := "";
      editingNote := Some(note);
      editTitle, editContent := note.title, note.content;
      editTags := Join(note.tags, ", ");
    }

    /** `updateNote`: with a blank title or content it only sets the error.
        Otherwise it sends the edited fields with the split, trimmed tags and
        the note's own archived flag (missing counts as false), closes the
        editor, clears the error and reloads as after any change. With no
        note being edited the request cannot be built and nothing changes. */
    method UpdateNote(listing: seq<NoteView>, found: seq<NoteView>) returns (sent: seq<Request>)
      modifies this`error, this`editingNote, this`notes, this`hasSearched
      ensures Blank(editTitle, editContent) ==>
        && sent == [] && error == RequiredMessage && editingNote == old(editingNote)
        && notes == old(notes) && hasSearched == old(hasSearched)
      ensures !Blank(editTitle, editContent) && old(editingNote).None? ==>
        && sent == [] && error == old(error) && editingNote == None
        && notes == old(notes) && hasSearched == old(hasSearched)
      ensures !Blank(editTitle, editContent) && old(editingNote).Some? ==>
        var e := old(editingNote).value;
        var searching := old(hasSearched) && !IsBlank(search);
        && sent == [PutNote(e.id, NoteBody(editTitle, editContent, EntryTags(editTags), IsArchived(e))),
                    if searching then SearchNotes(search) else ListNotes]
        && editingNote == None && error == ""
        && notes == (if searching then found else listing)
        && hasSearched == searching
    {
      if Blank(editTitle, editContent) {
        error := RequiredMessage;
        sent := [];
        return;
      }
      if editingNote.None? {
        sent := [];
        return;
      }
      var e := editingNote.value;
      var put := PutNote(e.id, NoteBody(editTitle, editContent, EntryTags(editTags), IsArchived(e)));
      editingNote := None;
      error := "";
      var reload := Reload(listing, found);
      sent := [put] + reload;
    }

    /** The "Activas" and "Archivadas" buttons pick the view. */
    method ShowView(archived: bool)
      modifies this`viewArchived
      ensures viewArchived == archived
      ensures FilteredNotes() == View(notes, archived)
    {
      viewArchived := archived;
    }

    /** The edit dialog's cancel button: closes the editor and clears the
        error, sending nothing. */
    method CancelEdit()
      modifies this`editingNote, this`error
      ensures editingNote == None && error == ""
    {
      editingNote, error := None, "";
    }

    /** `addTag`: a quick-tag button on the create form. */
    method AddTag(tag: string)
      modifies this`tags
      ensures tags == AppendedTag(old(tags), tag)
    {
      if IsBlank(tags) {
        tags := tag;
      } else {
        tags := tags + ", " + tag;
      }
    }

    /** `addEditTag`: a quick-tag button on the edit form. */
    method AddEditTag(tag: string)
      modifies this`editTags
      ensures editTags == AppendedTag(old(editTags), tag)
    {
      if IsBlank(editTags) {
        editTags := tag;
      } else {
        editTags := editTags + ", " + tag;
      }
    }
  }
}
