/** The stand-alone note form (app/components/NoteForm.jsx): on submit it
    hands a payload to its `onSave` callback, with the tag text split on
    commas, trimmed and stripped of empty tags, and then clears itself. */
module NoteFormComponent {
  import opened Text
  import opened Sequences

  /** What `onSave` receives. */
  datatype FormPayload = FormPayload(title: string, content: string, tags: seq<string>)

  /** `.filter(Boolean)` on strings: drops every "" and keeps every other
      string, each as often as it occurs, in order. */
  function DropEmpty(ts: seq<string>): (r: seq<string>)
    ensures forall t :: t in r <==> t in ts && t != ""
    ensures multiset(r) == multiset(ts)["" := 0]
    ensures IsSubsequence(r, ts)
  {
    if ts == [] then []
    else
      assert ts == [ts[0]] + ts[1..];
      assert multiset(ts) == multiset{ts[0]} + multiset(ts[1..]);
      var rest := DropEmpty(ts[1..]);
      assert rest != [] ==> rest[0] in rest;
      if ts[0] != "" then [ts[0]] + rest else rest
  }

  /** `tags.split(",").map(t => t.trim()).filter(Boolean)`. */
  function FormTags(tags: string): seq<string> {
    DropEmpty(TrimEach(Split(tags, ',')))
  }

  /** Every payload tag is non-empty, is its own trim and holds no comma;
      every non-empty trimmed piece of the input is among them, as often as
      it occurs, and they keep the order the pieces have in the input. */
  lemma FormTagsWellFormed(tags: string)
    ensures forall t :: t in FormTags(tags) ==> t != "" && Trim(t) == t && ',' !in t
    ensures forall k :: 0 <= k < |Split(tags, ',')| && Trim(Split(tags, ',')[k]) != "" ==>
              Trim(Split(tags, ',')[k]) in FormTags(tags)
    ensures multiset(FormTags(tags)) == multiset(TrimEach(Split(tags, ',')))["" := 0]
    ensures IsSubsequence(FormTags(tags), TrimEach(Split(tags, ',')))
  {
    var pieces := Split(tags, ',');
    var trimmed := TrimEach(pieces);
    forall t | t in FormTags(tags) ensures Trim(t) == t && ',' !in t {
      var k :| 0 <= k < |trimmed| && trimmed[k] == t;
      TrimIdempotent(pieces[k]);
      TrimKeepsOut(pieces[k], ',');
    }
    forall k | 0 <= k < |pieces| && Trim(pieces[k]) != "" ensures Trim(pieces[k]) in FormTags(tags) {
      assert trimmed[k] in trimmed;
    }
  }

  /** The form's state: the three controlled inputs. */
  class NoteForm {
    var title: string
    var content: string
    var tags: string

    constructor ()
      ensures title == "" && content == "" && tags == ""
    {
      title, content, tags := "", "", "";
    }

    /** `handleSubmit`: title and content go out exactly as typed (no
        validation, no trimming), the tags as `FormTags`; then every input is
        reset to "". */
    method HandleSubmit() returns (payload: FormPayload)
      modifies this
      ensures payload.title == old(title) && payload.content == old(content)
      ensures payload.tags == FormTags(old(tags))
      ensures title == "" && content == "" && tags == ""
    {
      var submitted := FormPayload(title, content, FormTags(tags));
      title, content, tags := "", "", "";
      payload := submitted;
    }
  }
}
