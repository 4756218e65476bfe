/** The search endpoint (app/api/notes/search/route.ts): the notes whose
    title, content or one of whose tags contains the query, ignoring case,
    in storage order. The query is matched as a literal string. */
module SearchRoute {
  import opened Wrappers
  import opened Text
  import opened Sequences
  import opened NoteSchema
  import NotesRoute

  /** The `q` parameter, or "" when the request has none. */
  function QueryOf(q: Option<string>): string {
    q.GetOr("")
  }

  /** The `$or` of the three case-insensitive conditions; on the array
      `tags` a condition holds when it holds of some element. */
  predicate Matches(n: Note, q: string) {
    || ContainsIgnoringCase(n.title, q)
    || ContainsIgnoringCase(n.content, q)
    || exists k :: 0 <= k < |n.tags| && ContainsIgnoringCase(n.tags[k], q)
  }

  /** `Note.find({ $or: ... })` over the collection `s`: exactly the stored
      notes that match, in storage order. */
  function Find(s: seq<Note>, q: string): (r: seq<Note>)
    ensures forall n :: n in r <==> n in s && Matches(n, q)
    ensures IsSubsequence(r, s)
    ensures forall n :: multiset(r)[n] == if Matches(n, q) then multiset(s)[n] else 0
  {
    if s == [] then []
    else
      assert s == [s[0]] + s[1..];
      assert multiset(s) == multiset{s[0]} + multiset(s[1..]);
      var rest := Find(s[1..], q);
      if Matches(s[0], q) then [s[0]] + rest else rest
  }

  /** The empty query matches every note, so the search returns the whole
      collection. */
  lemma {:induction false} EmptyQueryFindsAll(s: seq<Note>)
    ensures Find(s, "") == s
  {
    if s != [] {
      EmptyOccursEverywhere(s[0].title);
      EmptyQueryFindsAll(s[1..]);
    }
  }

  /** `GET /api/notes/search?q=...` against the store: only stored notes,
      every stored note that matches, in storage order; a missing `q` is
      the empty query and returns everything. Reads the store only. */
  method Search(store: NotesRoute.NoteStore, q: Option<string>) returns (r: seq<Note>)
    ensures forall n :: n in r <==> n in store.notes && Matches(n, QueryOf(q))
    ensures IsSubsequence(r, store.notes)
    ensures forall n :: multiset(r)[n] == if Matches(n, QueryOf(q)) then multiset(store.notes)[n] else 0
    ensures QueryOf(q) == "" ==> r == store.notes
  {
    var query := QueryOf(q);
    r := Find(store.notes, query);
    if query == "" {
      EmptyQueryFindsAll(store.notes);
    }
  }
}
