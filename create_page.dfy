/** The "create post" page: the tag editor (the `selectedTags` list and the `newTagInput`
    box), the tag names it submits, the preview's tag row and the enablement of the two
    submit buttons. */
module CreatePostPage {
  import opened Wrappers
  import opened Text
  import Display

  /** A tag as the editor holds it; `id` is the `Date.now()` of the add, passed in. */
  datatype EditorTag = EditorTag(id: int, name: string, slug: string)

  /** The number of tag badges the preview shows before the `+N` badge. */
  const PreviewTagLimit: nat := 3

  /** `selectedTags.find(tag => tag.name.toLowerCase() === newTagInput.toLowerCase())` finds
      a tag. The input is compared as typed, not trimmed. */
  predicate IsDuplicate(selected: seq<EditorTag>, input: string) {
    exists i :: 0 <= i < |selected| && Lower(selected[i].name) == Lower(input)
  }

  /** `newTagInput.trim().toLowerCase().replace(/\s+/g, '-')`: empty exactly when the input
      is blank, and free of whitespace and of upper-case ASCII letters. */
  function TagSlug(input: string): (slug: string)
    ensures slug == [] <==> Trim(input) == []
    ensures |slug| <= |Trim(input)|
    ensures forall i :: 0 <= i < |slug| ==> !IsSpace(slug[i])
    ensures forall i :: 0 <= i < |slug| ==> !('A' <= slug[i] <= 'Z')
  {
    var lowered := Lower(Trim(input));
    assert forall c :: c in lowered ==> !('A' <= c <= 'Z');
    CollapseSpaces(lowered)
  }

  /** The list `handleAddTag` as written leaves behind: a new tag named by the trimmed input
      is appended when the trimmed input is not empty and no selected tag has the untrimmed
      input's name up to case; otherwise the list is unchanged. */
  function AfterAdd(selected: seq<EditorTag>, input: string, now: int): seq<EditorTag> {
    if Trim(input) != [] && !IsDuplicate(selected, input)
    then selected + [EditorTag(now, Trim(input), TagSlug(input))]
    else selected
  }

  /** The input box after `handleAddTag` as written: cleared when a tag was appended, kept as
      typed otherwise. */
  function InputAfterAdd(selected: seq<EditorTag>, input: string): string {
    if Trim(input) != [] && !IsDuplicate(selected, input) then "" else input
  }

  /** No two selected tags have the same name up to case. */
  predicate NamesDistinctIgnoringCase(selected: seq<EditorTag>) {
    forall i, j :: 0 <= i < j < |selected| ==> Lower(selected[i].name) != Lower(selected[j].name)
  }

  /** The check the code evidently means: against the trimmed input, which is the name the
      add would store. */
  predicate IsDuplicateOfTrimmed(selected: seq<EditorTag>, input: string) {
    exists i :: 0 <= i < |selected| && Lower(selected[i].name) == Lower(Trim(input))
  }

  /** `handleAddTag` with the duplicate check on the trimmed input; `TagEditor.AddTag`
      follows it. */
  function AfterAddTrimmedCheck(selected: seq<EditorTag>, input: string, now: int): seq<EditorTag> {
    if Trim(input) != [] && !IsDuplicateOfTrimmed(selected, input)
    then selected + [EditorTag(now, Trim(input), TagSlug(input))]
    else selected
  }

  /** With the check on the trimmed input, the selected names stay distinct up to case. */
  lemma AfterAddTrimmedCheckKeepsNamesDistinct(selected: seq<EditorTag>, input: string, now: int)
    requires NamesDistinctIgnoringCase(selected)
    ensures NamesDistinctIgnoringCase(AfterAddTrimmedCheck(selected, input, now))
  {
    var r := AfterAddTrimmedCheck(selected, input, now);
    if r != selected {
      forall i, j | 0 <= i < j < |r|
        ensures Lower(r[i].name) != Lower(r[j].name)
      {
        if j == |selected| {
          assert r[j].name == Trim(input);
          assert r[i] == selected[i];
        }
      }
    }
  }

  /** A tag that a successful add produced: its name is trimmed and not empty, its slug holds
      no whitespace. */
  ghost predicate WellFormed(t: EditorTag) {
    && t.name != []
    && Trim(t.name) == t.name
    && forall i :: 0 <= i < |t.slug| ==> !IsSpace(t.slug[i])
  }

  /** Against well-formed selected tags, an input that the untrimmed check finds is already
      trimmed, so the check on the trimmed input finds it too. */
  lemma DuplicateIsDuplicateOfTrimmed(selected: seq<EditorTag>, input: string)
    requires forall i :: 0 <= i < |selected| ==> WellFormed(selected[i])
    requires IsDuplicate(selected, input)
    ensures Trim(input) == input
    ensures IsDuplicateOfTrimmed(selected, input)
  {
    var i :| 0 <= i < |selected| && Lower(selected[i].name) == Lower(input);
    assert WellFormed(selected[i]);
    TrimmedLikeLowerTwin(selected[i].name, input);
  }

  /** The three outcomes of `handleAddTag` as written: a blank input and an input whose
      untrimmed text matches a selected name up to case change nothing; any other input is
      appended, trimmed, and the box is cleared. Against well-formed selected tags it differs
      from the add with the trimmed check exactly when the untrimmed check misses and the
      trimmed one finds the name. */
  lemma AfterAddCases(selected: seq<EditorTag>, input: string, now: int)
    requires forall i :: 0 <= i < |selected| ==> WellFormed(selected[i])
    ensures Trim(input) == [] || IsDuplicate(selected, input) ==>
      AfterAdd(selected, input, now) == selected && InputAfterAdd(selected, input) == input
    ensures Trim(input) != [] && !IsDuplicate(selected, input) ==>
      && AfterAdd(selected, input, now) == selected + [EditorTag(now, Trim(input), TagSlug(input))]
      && InputAfterAdd(selected, input) == ""
    ensures AfterAdd(selected, input, now) != AfterAddTrimmedCheck(selected, input, now) <==>
      Trim(input) != [] && !IsDuplicate(selected, input) && IsDuplicateOfTrimmed(selected, input)
  {
    if IsDuplicate(selected, input) {
      DuplicateIsDuplicateOfTrimmed(selected, input);
    }
    if Trim(input) != [] && !IsDuplicate(selected, input) && IsDuplicateOfTrimmed(selected, input) {
      assert |AfterAdd(selected, input, now)| != |AfterAddTrimmedCheck(selected, input, now)|;
    }
  }

  /** `selectedTags.filter(tag => tag.id !== tagId)` */
  function WithoutId(tags: seq<EditorTag>, tagId: int): (r: seq<EditorTag>)
    ensures |r| <= |tags|
  {
    if tags == [] then []
    else if tags[0].id == tagId then WithoutId(tags[1..], tagId)
    else [tags[0]] + WithoutId(tags[1..], tagId)
  }

  /** A tag survives the removal exactly when its id differs from the removed id. */
  lemma {:induction false} WithoutIdMembers(tags: seq<EditorTag>, tagId: int)
    ensures forall t :: t in WithoutId(tags, tagId) <==> t in tags && t.id != tagId
  {
    if tags != [] {
      WithoutIdMembers(tags[1..], tagId);
      assert tags == [tags[0]] + tags[1..];
    }
  }

  /** Removal keeps the order of what remains: filtering a concatenation filters each part. */
  lemma {:induction false} WithoutIdKeepsOrder(a: seq<EditorTag>, b: seq<EditorTag>, tagId: int)
    ensures WithoutId(a + b, tagId) == WithoutId(a, tagId) + WithoutId(b, tagId)
  {
    if a == [] {
      assert a + b == b;
    } else {
      assert (a + b)[0] == a[0];
      assert (a + b)[1..] == a[1..] + b;
      WithoutIdKeepsOrder(a[1..], b, tagId);
    }
  }

  /** Removing an id that no tag carries changes nothing. */
  lemma {:induction false} WithoutAbsentId(tags: seq<EditorTag>, tagId: int)
    requires forall i :: 0 <= i < |tags| ==> tags[i].id != tagId
    ensures WithoutId(tags, tagId) == tags
  {
    if tags != [] {
      WithoutAbsentId(tags[1..], tagId);
    }
  }

  /** No two tags share a key. */
  ghost predicate KeysDistinct(tags: seq<EditorTag>, key: EditorTag -> string) {
    forall i, j :: 0 <= i < j < |tags| ==> key(tags[i]) != key(tags[j])
  }

  /** Removal only drops tags, so tags with distinct keys keep distinct keys. */
  lemma {:induction false} WithoutIdKeepsKeysDistinct(tags: seq<EditorTag>, tagId: int, key: EditorTag -> string)
    requires KeysDistinct(tags, key)
    ensures KeysDistinct(WithoutId(tags, tagId), key)
  {
    if tags != [] {
      var rest := tags[1..];
      assert KeysDistinct(rest, key) by {
        forall i, j | 0 <= i < j < |rest|
          ensures key(rest[i]) != key(rest[j])
        {
          assert rest[i] == tags[i + 1] && rest[j] == tags[j + 1];
        }
      }
      WithoutIdKeepsKeysDistinct(rest, tagId, key);
      WithoutIdMembers(rest, tagId);
      if tags[0].id != tagId {
        var r := WithoutId(tags, tagId);
        var fr := WithoutId(rest, tagId);
        assert r == [tags[0]] + fr;
        forall i, j | 0 <= i < j < |r|
          ensures key(r[i]) != key(r[j])
        {
          assert r[j] == fr[j - 1] && fr[j - 1] in rest;
          if i == 0 {
            var k :| 0 <= k < |rest| && rest[k] == fr[j - 1];
            assert tags[k + 1] == rest[k];
          } else {
            assert r[i] == fr[i - 1];
          }
        }
      }
    }
  }

  /** Removal keeps the names distinct up to case. */
  lemma WithoutIdKeepsNamesDistinct(tags: seq<EditorTag>, tagId: int)
    requires NamesDistinctIgnoringCase(tags)
    ensures NamesDistinctIgnoringCase(WithoutId(tags, tagId))
  {
    var key := (t: EditorTag) => Lower(t.name);
    assert KeysDistinct(tags, key);
    WithoutIdKeepsKeysDistinct(tags, tagId, key);
    var r := WithoutId(tags, tagId);
    assert forall i :: 0 <= i < |r| ==> key(r[i]) == Lower(r[i].name);
  }

  /** `selectedTags.map(tag => tag.name)`: the `tags` field that `handleSubmit` posts. */
  function TagNames(selected: seq<EditorTag>): (names: seq<string>)
    ensures |names| == |selected|
    ensures forall i :: 0 <= i < |names| ==> names[i] == selected[i].name
  {
    seq(|selected|, i requires 0 <= i < |selected| => selected[i].name)
  }

  /** The preview's tag row: three badges, then `+N`. */
  function PreviewBadges(selected: seq<EditorTag>): (r: Display.BadgeRow<EditorTag>)
    ensures |r.shown| == Min(|selected|, PreviewTagLimit) && r.shown == selected[..|r.shown|]
    ensures r.more.Some? <==> |selected| > PreviewTagLimit
    ensures r.more.Some? ==> r.more.value == |selected| - PreviewTagLimit
  {
    Display.Badges(selected, PreviewTagLimit)
  }

  /** "Save Draft" is disabled while saving or while the title is blank. */
  predicate SaveDraftDisabled(loading: bool, title: string) {
    loading || Trim(title) == []
  }

  /** "Publish" is disabled while saving or while the title or the content is blank. */
  predicate PublishDisabled(loading: bool, title: string, content: string) {
    loading || Trim(title) == [] || Trim(content) == []
  }

  /** Publishing is possible only where saving a draft is, and saving a draft is possible
      exactly when nothing is being saved and the title has a non-whitespace character. */
  lemma SubmitEnablement(loading: bool, title: string, content: string)
    ensures !PublishDisabled(loading, title, content) ==> !SaveDraftDisabled(loading, title)
    ensures !SaveDraftDisabled(loading, title) <==>
      !loading && exists i :: 0 <= i < |title| && !IsSpace(title[i])
  {
  }

  /** The tag editor's component state. */
  class TagEditor {
    var selectedTags: seq<EditorTag>
    var newTagInput: string

    ghost predicate Valid()
      reads this
    {
      && (forall i :: 0 <= i < |selectedTags| ==> WellFormed(selectedTags[i]))
      && NamesDistinctIgnoringCase(selectedTags)
    }

    constructor ()
      ensures Valid()
      ensures selectedTags == [] && newTagInput == ""
    {
      selectedTags := [];
      newTagInput := "";
    }

    /** The input box's `onChange`. */
    method SetNewTagInput(value: string)
      requires Valid()
      modifies this
      ensures Valid()
      ensures newTagInput == value && selectedTags == old(selectedTags)
    {
      newTagInput := value;
    }

    /** `handleAddTag`, with `Date.now()` passed in as `now` and with the duplicate check
        made on the trimmed input (see README, Findings): a blank input or a name already
        selected up to case changes nothing; otherwise the trimmed input is appended as a
        new tag and the input box is cleared. */
    method AddTag(now: int)
      requires Valid()
      modifies this
      ensures Valid()
      ensures selectedTags == AfterAddTrimmedCheck(old(selectedTags), old(newTagInput), now)
      ensures Trim(old(newTagInput)) == [] || IsDuplicateOfTrimmed(old(selectedTags), old(newTagInput)) ==>
        selectedTags == old(selectedTags) && newTagInput == old(newTagInput)
      ensures IsDuplicate(old(selectedTags), old(newTagInput)) ==>
        selectedTags == old(selectedTags) && newTagInput == old(newTagInput)
      ensures Trim(old(newTagInput)) != [] && !IsDuplicateOfTrimmed(old(selectedTags), old(newTagInput)) ==>
        && selectedTags == old(selectedTags) + [EditorTag(now, Trim(old(newTagInput)), TagSlug(old(newTagInput)))]
        && newTagInput == ""
    {
      var trimmed := Trim(newTagInput);
      var duplicate := exists i :: 0 <= i < |selectedTags| && Lower(selectedTags[i].name) == Lower(trimmed);
      AfterAddTrimmedCheckKeepsNamesDistinct(selectedTags, newTagInput, now);
      if IsDuplicate(selectedTags, newTagInput) {
        DuplicateIsDuplicateOfTrimmed(selectedTags, newTagInput);
      }
      if trimmed != [] && !duplicate {
        TrimIdempotent(newTagInput);
        selectedTags := selectedTags + [EditorTag(now, trimmed, TagSlug(newTagInput))];
        newTagInput := "";
      }
    }

    /** `handleRemoveTag`. */
    method RemoveTag(tagId: int)
      requires Valid()
      modifies this
      ensures Valid()
      ensures selectedTags == WithoutId(old(selectedTags), tagId) && newTagInput == old(newTagInput)
    {
      ghost var before := selectedTags;
      WithoutIdKeepsNamesDistinct(selectedTags, tagId);
      selectedTags := WithoutId(selectedTags, tagId);
      WithoutIdMembers(before, tagId);
      forall i | 0 <= i < |selectedTags|
        ensures WellFormed(selectedTags[i])
      {
        assert selectedTags[i] in before;
      }
    }
  }

  /** Every tag name that the page submits from well-formed selected tags is trimmed and not
      empty. */
  lemma SubmittedNamesAreTrimmed(selected: seq<EditorTag>)
    requires forall i :: 0 <= i < |selected| ==> WellFormed(selected[i])
    ensures forall i :: 0 <= i < |TagNames(selected)| ==>
      TagNames(selected)[i] != [] && Trim(TagNames(selected)[i]) == TagNames(selected)[i]
  {
  }

  /** The add as written only appends well-formed tags: the trimmed input is non-empty and
      trimmed, and its slug holds no whitespace. Both versions of the add agree on this. */
  lemma AfterAddKeepsWellFormed(selected: seq<EditorTag>, input: string, now: int)
    requires forall i :: 0 <= i < |selected| ==> WellFormed(selected[i])
    ensures var r := AfterAdd(selected, input, now);
      forall i :: 0 <= i < |r| ==> WellFormed(r[i])
    ensures var r := AfterAddTrimmedCheck(selected, input, now);
      forall i :: 0 <= i < |r| ==> WellFormed(r[i])
  {
    if Trim(input) != [] {
      TrimIdempotent(input);
      var t := EditorTag(now, Trim(input), TagSlug(input));
      AppendKeepsWellFormed(selected, t);
      assert AfterAdd(selected, input, now) in {selected, selected + [t]};
      assert AfterAddTrimmedCheck(selected, input, now) in {selected, selected + [t]};
    }
  }

  /** Appending a well-formed tag keeps every selected tag well-formed. */
  lemma AppendKeepsWellFormed(selected: seq<EditorTag>, t: EditorTag)
    requires forall i :: 0 <= i < |selected| ==> WellFormed(selected[i])
    requires WellFormed(t)
    ensures var r := selected + [t];
      forall i :: 0 <= i < |r| ==> WellFormed(r[i])
  {
  }

  /** Removal keeps every remaining tag well-formed. */
  lemma WithoutIdKeepsWellFormed(tags: seq<EditorTag>, tagId: int)
    requires forall i :: 0 <= i < |tags| ==> WellFormed(tags[i])
    ensures var r := WithoutId(tags, tagId);
      forall i :: 0 <= i < |r| ==> WellFormed(r[i])
  {
    WithoutIdMembers(tags, tagId);
    var r := WithoutId(tags, tagId);
    forall i | 0 <= i < |r|
      ensures WellFormed(r[i])
    {
      assert r[i] in tags;
    }
  }

  // ----- The duplicate check as written -----

  /** As written, the duplicate check lets a tag in again when the input carries extra
      whitespace: with "react" selected, the input " react" is no duplicate, the add appends a
      second tag named "react", and the names are no longer distinct. */
  lemma UntrimmedInputEvadesDuplicateCheck()
    ensures var selected := [EditorTag(1, "react", "react")];
      && !IsDuplicate(selected, " react")
      && AfterAdd(selected, " react", 2) == selected + [EditorTag(2, "react", TagSlug(" react"))]
      && !NamesDistinctIgnoringCase(AfterAdd(selected, " react", 2))
  {
    var selected := [EditorTag(1, "react", "react")];
    TrimOfPaddedName();
    assert |Lower(" react")| != |Lower("react")|;
    var r := AfterAdd(selected, " react", 2);
    assert r == selected + [EditorTag(2, "react", TagSlug(" react"))];
    assert Lower(r[0].name) == Lower(r[1].name);
  }

  lemma TrimOfPaddedName()
    ensures Trim(" react") == "react"
  {
    assert " react"[1..] == "react";
    assert !IsSpace('r') && !IsSpace('t');
    assert LeadingSpaces("react") == 0;
    assert LeadingSpaces(" react") == 1;
    assert TrailingSpaces("react") == 0;
    assert "react"[..5] == "react";
  }
}
