/** The tags table as the post controller uses it: `firstOrCreate` by name, the usage
    counter's increment and decrement, the loop that resolves a request's tag names, and
    the decrement pass over a post's associated tags. The table is a sequence whose
    positions are the tag ids: this code never deletes a tag. */
module TagLedger {
  import opened Wrappers

  datatype Tag = Tag(name: string, slug: string, usageCount: int)

  predicate HasName(tags: seq<Tag>, name: string) {
    exists j :: 0 <= j < |tags| && tags[j].name == name
  }

  /** No two rows share a name; `firstOrCreate` by name keeps it so. */
  ghost predicate NamesUnique(tags: seq<Tag>) {
    forall i, j :: 0 <= i < j < |tags| ==> tags[i].name != tags[j].name
  }

  /** A request lists no tag name twice. */
  ghost predicate Distinct(names: seq<string>) {
    forall k, l :: 0 <= k < l < |names| ==> names[k] != names[l]
  }

  /** How many times `name` appears in a request's tag list. */
  function Occurrences(names: seq<string>, name: string): nat {
    multiset(names)[name]
  }

  /** The ids a `sync` call attaches: duplicates collapse. */
  function AsSet(ids: seq<nat>): set<nat> {
    set k | 0 <= k < |ids| :: ids[k]
  }

  /** `Tag::where('name', $name)->first()`: the row with the smallest id carrying the name. */
  function FindByName(tags: seq<Tag>, name: string): (r: Option<nat>)
    ensures r.Some? ==> r.value < |tags| && tags[r.value].name == name
    ensures r.Some? ==> forall j :: 0 <= j < r.value ==> tags[j].name != name
    ensures r.None? <==> !HasName(tags, name)
  {
    if tags == [] then None
    else match FindByName(tags[..|tags| - 1], name)
      case Some(j) => Some(j)
      case None => if tags[|tags| - 1].name == name then Some(|tags| - 1) else None
  }

  datatype Found = Found(tags: seq<Tag>, id: nat)

  /** `Tag::firstOrCreate(['name' => $name], ['slug' => Str::slug($name)])`: the existing row
      with that name, or a new row at the end with the slug of the name and a count of 0. */
  function FirstOrCreate(tags: seq<Tag>, name: string, slugify: string -> string): (r: Found)
    ensures r.id < |r.tags| && r.tags[r.id].name == name
    ensures HasName(tags, name) ==> r.tags == tags
    ensures !HasName(tags, name) ==> r.tags == tags + [Tag(name, slugify(name), 0)] && r.id == |tags|
  {
    match FindByName(tags, name)
    case Some(j) => Found(tags, j)
    case None => Found(tags + [Tag(name, slugify(name), 0)], |tags|)
  }

  /** `$tag->incrementCount()` */
  function Increment(tags: seq<Tag>, id: nat): seq<Tag>
    requires id < |tags|
  {
    tags[id := tags[id].(usageCount := tags[id].usageCount + 1)]
  }

  /** `$tag->decrementCount()`, taken as a plain decrement (see README). */
  function Decrement(tags: seq<Tag>, id: nat): seq<Tag>
    requires id < |tags|
  {
    tags[id := tags[id].(usageCount := tags[id].usageCount - 1)]
  }

  datatype Resolution = Resolution(tags: seq<Tag>, ids: seq<nat>)

  /** The `foreach ($request->tags as $tagName)` loop of `store` and `update`: for each name
      in order, find or create its row, increment it, and collect its id. */
  function Resolve(tags: seq<Tag>, names: seq<string>, slugify: string -> string): Resolution
    decreases |names|
  {
    if names == [] then Resolution(tags, [])
    else
      var prev := Resolve(tags, names[..|names| - 1], slugify);
      var found := FirstOrCreate(prev.tags, names[|names| - 1], slugify);
      Resolution(Increment(found.tags, found.id), prev.ids + [found.id])
  }

  /** The `foreach ($post->tags as $tag) $tag->decrementCount()` pass: every row in `ids`
      loses one, every other row is untouched. */
  function DecrementAll(tags: seq<Tag>, ids: set<nat>): seq<Tag> {
    seq(|tags|, j requires 0 <= j < |tags| =>
      if j in ids then tags[j].(usageCount := tags[j].usageCount - 1) else tags[j])
  }

  /** One step of the decrement pass. */
  lemma DecrementAllStep(tags: seq<Tag>, done: set<nat>, t: nat)
    requires t < |tags| && t !in done
    ensures DecrementAll(tags, done + {t}) == Decrement(DecrementAll(tags, done), t)
  {
  }

  /** The decrement pass changes counts only. */
  lemma DecrementAllKeepsNames(tags: seq<Tag>, ids: set<nat>)
    ensures |DecrementAll(tags, ids)| == |tags|
    ensures forall j :: 0 <= j < |tags| ==>
      DecrementAll(tags, ids)[j].name == tags[j].name && DecrementAll(tags, ids)[j].slug == tags[j].slug
    ensures forall j :: 0 <= j < |tags| ==>
      DecrementAll(tags, ids)[j].usageCount == tags[j].usageCount - (if j in ids then 1 else 0)
    ensures NamesUnique(tags) ==> NamesUnique(DecrementAll(tags, ids))
  {
  }

  /** The resolve loop keeps the old rows' names and slugs, and only adds rows. */
  lemma {:induction false} ResolveKeepsOldRows(tags: seq<Tag>, names: seq<string>, slugify: string -> string)
    ensures |tags| <= |Resolve(tags, names, slugify).tags|
    ensures forall j :: 0 <= j < |tags| ==>
      Resolve(tags, names, slugify).tags[j].name == tags[j].name &&
      Resolve(tags, names, slugify).tags[j].slug == tags[j].slug
  {
    if names != [] {
      var init := names[..|names| - 1];
      ResolveKeepsOldRows(tags, init, slugify);
      var prev := Resolve(tags, init, slugify);
      var found := FirstOrCreate(prev.tags, names[|names| - 1], slugify);
      var rt := Increment(found.tags, found.id);
      assert Resolve(tags, names, slugify).tags == rt;
      forall j | 0 <= j < |tags|
        ensures rt[j].name == tags[j].name && rt[j].slug == tags[j].slug
      {
        assert found.tags[j] == prev.tags[j];
      }
    }
  }

  /** One id per requested name, naming a row with that name. */
  lemma {:induction false} ResolveIds(tags: seq<Tag>, names: seq<string>, slugify: string -> string)
    ensures |Resolve(tags, names, slugify).ids| == |names|
    ensures forall k :: 0 <= k < |names| ==>
      Resolve(tags, names, slugify).ids[k] < |Resolve(tags, names, slugify).tags| &&
      Resolve(tags, names, slugify).tags[Resolve(tags, names, slugify).ids[k]].name == names[k]
  {
    if names != [] {
      var init := names[..|names| - 1];
      ResolveIds(tags, init, slugify);
      var prev := Resolve(tags, init, slugify);
      var found := FirstOrCreate(prev.tags, names[|names| - 1], slugify);
      var rt := Increment(found.tags, found.id);
      var ids := prev.ids + [found.id];
      assert Resolve(tags, names, slugify) == Resolution(rt, ids);
      forall k | 0 <= k < |names|
        ensures ids[k] < |rt| && rt[ids[k]].name == names[k]
      {
        if k < |init| {
          assert ids[k] == prev.ids[k];
          assert found.tags[prev.ids[k]] == prev.tags[prev.ids[k]];
        }
      }
    }
  }

  /** Every row the resolve loop adds carries a requested name that no old row had, with
      that name's slug. */
  lemma {:induction false} ResolveNewRows(tags: seq<Tag>, names: seq<string>, slugify: string -> string)
    ensures forall j :: |tags| <= j < |Resolve(tags, names, slugify).tags| ==>
      && Resolve(tags, names, slugify).tags[j].name in names
      && Resolve(tags, names, slugify).tags[j].slug == slugify(Resolve(tags, names, slugify).tags[j].name)
      && !HasName(tags, Resolve(tags, names, slugify).tags[j].name)
  {
    if names != [] {
      var init, x := names[..|names| - 1], names[|names| - 1];
      ResolveNewRows(tags, init, slugify);
      ResolveKeepsOldRows(tags, init, slugify);
      var prev := Resolve(tags, init, slugify);
      var found := FirstOrCreate(prev.tags, x, slugify);
      var rt := Increment(found.tags, found.id);
      assert Resolve(tags, names, slugify).tags == rt;
      HasNameCarriesOver(tags, prev.tags, x);
      assert names == init + [x];
      forall j | |tags| <= j < |rt|
        ensures rt[j].name in names && rt[j].slug == slugify(rt[j].name) && !HasName(tags, rt[j].name)
      {
        if j < |prev.tags| {
          assert rt[j].name == prev.tags[j].name && rt[j].slug == prev.tags[j].slug;
          assert prev.tags[j].name in init;
        } else {
          assert rt[j].name == x && rt[j].slug == slugify(x);
        }
      }
    }
  }

  /** What the resolve loop leaves behind: one id per requested name, naming a row with that
      name; the old rows keep their names and slugs; every row it adds carries a requested
      name that no old row had, with that name's slug. */
  lemma ResolveShape(tags: seq<Tag>, names: seq<string>, slugify: string -> string)
    ensures var r := Resolve(tags, names, slugify);
      && |r.ids| == |names|
      && |tags| <= |r.tags|
      && (forall k :: 0 <= k < |names| ==> r.ids[k] < |r.tags| && r.tags[r.ids[k]].name == names[k])
      && (forall j :: 0 <= j < |tags| ==> r.tags[j].name == tags[j].name && r.tags[j].slug == tags[j].slug)
      && (forall j :: |tags| <= j < |r.tags| ==>
            && r.tags[j].name in names
            && r.tags[j].slug == slugify(r.tags[j].name)
            && !HasName(tags, r.tags[j].name))
  {
    ResolveKeepsOldRows(tags, names, slugify);
    ResolveIds(tags, names, slugify);
    ResolveNewRows(tags, names, slugify);
  }

  /** What the post controller needs of the resolve loop: the table only grows, every
      collected id is a row of it, and names stay unique. */
  lemma ResolveBounds(tags: seq<Tag>, names: seq<string>, slugify: string -> string)
    ensures var r := Resolve(tags, names, slugify);
      && |tags| <= |r.tags|
      && (forall k :: 0 <= k < |r.ids| ==> r.ids[k] < |r.tags|)
      && (NamesUnique(tags) ==> NamesUnique(r.tags))
  {
    ResolveKeepsOldRows(tags, names, slugify);
    ResolveIds(tags, names, slugify);
    if NamesUnique(tags) {
      ResolveKeepsNamesUnique(tags, names, slugify);
    }
  }

  /** A name held by an old row is still held once old rows keep their names. */
  lemma HasNameCarriesOver(tags: seq<Tag>, later: seq<Tag>, name: string)
    requires |tags| <= |later|
    requires forall j :: 0 <= j < |tags| ==> later[j].name == tags[j].name
    ensures HasName(tags, name) ==> HasName(later, name)
  {
    if HasName(tags, name) {
      var j :| 0 <= j < |tags| && tags[j].name == name;
      assert later[j].name == name;
    }
  }

  /** `firstOrCreate` adds a row only for a name no row has. */
  lemma FirstOrCreateKeepsNamesUnique(tags: seq<Tag>, name: string, slugify: string -> string)
    requires NamesUnique(tags)
    ensures NamesUnique(FirstOrCreate(tags, name, slugify).tags)
  {
  }

  /** The resolve loop never adds a second row for a name: an existing row is reused. */
  lemma {:induction false} ResolveKeepsNamesUnique(tags: seq<Tag>, names: seq<string>, slugify: string -> string)
    requires NamesUnique(tags)
    ensures NamesUnique(Resolve(tags, names, slugify).tags)
  {
    if names != [] {
      var init, x := names[..|names| - 1], names[|names| - 1];
      ResolveKeepsNamesUnique(tags, init, slugify);
      var prev := Resolve(tags, init, slugify);
      FirstOrCreateKeepsNamesUnique(prev.tags, x, slugify);
    }
  }

  /** The count each row ends with: what it had (0 for a row the loop created) plus one for
      each time its name appears in the request. */
  lemma {:induction false} ResolveCounts(tags: seq<Tag>, names: seq<string>, slugify: string -> string)
    requires NamesUnique(tags)
    ensures var r := Resolve(tags, names, slugify);
      forall j :: 0 <= j < |r.tags| ==>
        r.tags[j].usageCount == (if j < |tags| then tags[j].usageCount else 0) + Occurrences(names, r.tags[j].name)
  {
    if names != [] {
      var init, x := names[..|names| - 1], names[|names| - 1];
      assert names == init + [x];
      ResolveCounts(tags, init, slugify);
      ResolveIds(tags, init, slugify);
      ResolveKeepsOldRows(tags, init, slugify);
      ResolveKeepsNamesUnique(tags, init, slugify);
      var prev := Resolve(tags, init, slugify);
      FirstOrCreateKeepsNamesUnique(prev.tags, x, slugify);
      var found := FirstOrCreate(prev.tags, x, slugify);
      var rt := Increment(found.tags, found.id);
      assert Resolve(tags, names, slugify).tags == rt;
      if x in init {
        var k :| 0 <= k < |init| && init[k] == x;
        assert prev.tags[prev.ids[k]].name == x;
      }
      forall j | 0 <= j < |rt|
        ensures rt[j].usageCount == (if j < |tags| then tags[j].usageCount else 0) + Occurrences(names, rt[j].name)
      {
        assert multiset(names)[rt[j].name] == multiset(init)[rt[j].name] + (if rt[j].name == x then 1 else 0);
        if j == found.id {
          assert rt[j].usageCount == found.tags[j].usageCount + 1 && rt[j].name == x;
          if j == |prev.tags| {
            assert x !in init;
          }
        } else {
          assert rt[j] == found.tags[j];
          assert found.tags[found.id].name == x;
          assert found.tags[j].name != x;
          assert found.tags[j] == prev.tags[j];
        }
      }
    }
  }

  /** The set a `sync` attaches is exactly the rows whose names were requested. */
  lemma ResolvedIdsAreRequestedRows(tags: seq<Tag>, names: seq<string>, slugify: string -> string)
    requires NamesUnique(tags)
    ensures var r := Resolve(tags, names, slugify);
      AsSet(r.ids) == set j | 0 <= j < |r.tags| && r.tags[j].name in names
  {
    var r := Resolve(tags, names, slugify);
    ResolveIds(tags, names, slugify);
    ResolveKeepsNamesUnique(tags, names, slugify);
    forall j | 0 <= j < |r.tags| && r.tags[j].name in names
      ensures j in AsSet(r.ids)
    {
      var k :| 0 <= k < |names| && names[k] == r.tags[j].name;
      assert r.tags[r.ids[k]].name == r.tags[j].name;
    }
    forall t | t in AsSet(r.ids)
      ensures 0 <= t < |r.tags| && r.tags[t].name in names
    {
      var k :| 0 <= k < |r.ids| && r.ids[k] == t;
      assert r.tags[t].name == names[k];
    }
  }

  /** In a request without repeated names, a name occurs once or not at all. */
  lemma {:induction false} DistinctOccurrences(names: seq<string>, name: string)
    requires Distinct(names)
    ensures Occurrences(names, name) == if name in names then 1 else 0
  {
    if names != [] {
      var rest := names[1..];
      assert names == [names[0]] + rest;
      assert Distinct(rest);
      DistinctOccurrences(rest, name);
      assert names[0] !in rest;
    }
  }

  /** The net effect of `update` on the counts, for a request without repeated names: it
      decrements every old tag and then increments every requested one, so each existing
      row moves by one for being requested and back by one for having been associated: a
      kept tag ends where it was, a dropped tag loses one, an added tag gains one, an
      unrelated tag is untouched. A row it creates ends at 1. */
  lemma UpdateNetEffect(tags: seq<Tag>, assoc: set<nat>, names: seq<string>, slugify: string -> string)
    requires NamesUnique(tags)
    requires Distinct(names)
    ensures var r := Resolve(DecrementAll(tags, assoc), names, slugify);
      && |tags| <= |r.tags|
      && (forall j :: 0 <= j < |tags| ==>
            r.tags[j].usageCount == tags[j].usageCount
              - (if j in assoc then 1 else 0) + (if tags[j].name in names then 1 else 0))
      && (forall j :: |tags| <= j < |r.tags| ==> r.tags[j].usageCount == 1)
  {
    var d := DecrementAll(tags, assoc);
    DecrementAllKeepsNames(tags, assoc);
    ResolveCounts(d, names, slugify);
    ResolveKeepsOldRows(d, names, slugify);
    ResolveNewRows(d, names, slugify);
    var r := Resolve(d, names, slugify);
    forall j | 0 <= j < |r.tags|
      ensures Occurrences(names, r.tags[j].name) == if r.tags[j].name in names then 1 else 0
    {
      DistinctOccurrences(names, r.tags[j].name);
    }
  }

  /** When every requested name already has a row, the resolve loop creates none. */
  lemma {:induction false} ResolveExistingNames(tags: seq<Tag>, names: seq<string>, slugify: string -> string)
    requires forall k :: 0 <= k < |names| ==> HasName(tags, names[k])
    ensures |Resolve(tags, names, slugify).tags| == |tags|
  {
    if names != [] {
      var init, x := names[..|names| - 1], names[|names| - 1];
      assert forall k :: 0 <= k < |init| ==> init[k] == names[k];
      ResolveExistingNames(tags, init, slugify);
      ResolveKeepsOldRows(tags, init, slugify);
      var prev := Resolve(tags, init, slugify);
      HasNameCarriesOver(tags, prev.tags, x);
      assert FirstOrCreate(prev.tags, x, slugify).tags == prev.tags;
    }
  }

  /** Updating a post with requested names that all have rows creates no row. */
  lemma UpdateWithExistingNamesCreatesNoRow(tags: seq<Tag>, assoc: set<nat>, names: seq<string>, slugify: string -> string)
    requires forall k :: 0 <= k < |names| ==> HasName(tags, names[k])
    ensures |Resolve(DecrementAll(tags, assoc), names, slugify).tags| == |tags|
  {
    var d := DecrementAll(tags, assoc);
    DecrementAllKeepsNames(tags, assoc);
    forall k | 0 <= k < |names|
      ensures HasName(d, names[k])
    {
      HasNameCarriesOver(tags, d, names[k]);
    }
    ResolveExistingNames(d, names, slugify);
  }

  /** A table whose rows keep their names and slugs and whose counts each went down by one
      for being associated and up by one per request occurrence is unchanged when the
      associated rows are exactly the requested ones. */
  lemma CountsRestored(tags: seq<Tag>, rt: seq<Tag>, assoc: set<nat>, names: seq<string>)
    requires |rt| == |tags|
    requires Distinct(names)
    requires assoc == set j | 0 <= j < |tags| && tags[j].name in names
    requires forall j :: 0 <= j < |tags| ==> rt[j].name == tags[j].name && rt[j].slug == tags[j].slug
    requires forall j :: 0 <= j < |tags| ==>
      rt[j].usageCount == tags[j].usageCount - (if j in assoc then 1 else 0) + Occurrences(names, rt[j].name)
    ensures rt == tags
  {
    forall j | 0 <= j < |tags|
      ensures rt[j] == tags[j]
    {
      DistinctOccurrences(names, tags[j].name);
    }
  }

  /** Updating a post with the tags it already has changes no row: each is decremented and
      incremented once, and no row is created. */
  lemma UpdateWithSameTagsKeepsRows(tags: seq<Tag>, assoc: set<nat>, names: seq<string>, slugify: string -> string)
    requires NamesUnique(tags)
    requires Distinct(names)
    requires forall k :: 0 <= k < |names| ==> HasName(tags, names[k])
    requires assoc == set j | 0 <= j < |tags| && tags[j].name in names
    ensures Resolve(DecrementAll(tags, assoc), names, slugify).tags == tags
  {
    var d := DecrementAll(tags, assoc);
    UpdateWithExistingNamesCreatesNoRow(tags, assoc, names, slugify);
    DecrementAllKeepsNames(tags, assoc);
    ResolveKeepsOldRows(d, names, slugify);
    ResolveCounts(d, names, slugify);
    CountsRestored(tags, Resolve(d, names, slugify).tags, assoc, names);
  }

  /** Updating a post with the tags it already has leaves every row as it was, and the
      association `sync` receives is the same set. */
  lemma UpdateWithSameTagsChangesNothing(tags: seq<Tag>, assoc: set<nat>, names: seq<string>, slugify: string -> string)
    requires NamesUnique(tags)
    requires Distinct(names)
    requires forall k :: 0 <= k < |names| ==> HasName(tags, names[k])
    requires assoc == set j | 0 <= j < |tags| && tags[j].name in names
    ensures var r := Resolve(DecrementAll(tags, assoc), names, slugify);
      r.tags == tags && AsSet(r.ids) == assoc
  {
    var d := DecrementAll(tags, assoc);
    UpdateWithSameTagsKeepsRows(tags, assoc, names, slugify);
    DecrementAllKeepsNames(tags, assoc);
    ResolvedIdsAreRequestedRows(d, names, slugify);
  }
}
