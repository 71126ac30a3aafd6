/** The category controller: allocating a unique slug for a new or renamed category by
    sequential probing, and refusing to delete a category that still has posts.
    `Str::slug` is Laravel's and not part of this model: it is passed in as `slugify`. */
module CategoryController {
  import opened Wrappers
  import opened Text

  datatype Category = Category(name: string, slug: string, description: Option<string>)

  /** The k-th candidate of the probe: the base slug itself, then `base-1`, `base-2`, ... */
  function Probe(base: string, k: nat): (s: string)
    ensures k == 0 ==> s == base
    ensures k > 0 ==> s == base + "-" + Decimal(k)
  {
    if k == 0 then base else base + "-" + Decimal(k)
  }

  /** The candidates are pairwise distinct, so a finite set of taken slugs cannot hold all
      of them. */
  lemma ProbesDistinct(base: string, j: nat, k: nat)
    requires j != k
    ensures Probe(base, j) != Probe(base, k)
  {
    if j > 0 && k > 0 && Probe(base, j) == Probe(base, k) {
      var pj := Probe(base, j);
      assert Decimal(j) == pj[|base| + 1..];
      assert Decimal(k) == pj[|base| + 1..];
      DecimalInjective(j, k);
    }
  }

  /** The candidates probed before the k-th one. */
  ghost function ProbedBefore(base: string, k: nat): set<string> {
    set i | 0 <= i < k :: Probe(base, i)
  }

  lemma ProbedBeforeStep(base: string, k: nat)
    ensures ProbedBefore(base, k + 1) == ProbedBefore(base, k) + {Probe(base, k)}
    ensures Probe(base, k) !in ProbedBefore(base, k)
  {
    forall i | 0 <= i < k
      ensures Probe(base, i) != Probe(base, k)
    {
      ProbesDistinct(base, i, k);
    }
  }

  /** `slug` is what the probe finds: the first candidate that is not taken. */
  ghost predicate FirstFree(taken: set<string>, base: string, slug: string) {
    exists n: nat :: slug == Probe(base, n) && slug !in taken
      && forall k :: 0 <= k < n ==> Probe(base, k) in taken
  }

  /** The probe's outcome is determined: at most one slug is the first free candidate. */
  lemma FirstFreeUnique(taken: set<string>, base: string, s1: string, s2: string)
    requires FirstFree(taken, base, s1) && FirstFree(taken, base, s2)
    ensures s1 == s2
  {
    var n1: nat :| s1 == Probe(base, n1) && s1 !in taken && forall k :: 0 <= k < n1 ==> Probe(base, k) in taken;
    var n2: nat :| s2 == Probe(base, n2) && s2 !in taken && forall k :: 0 <= k < n2 ==> Probe(base, k) in taken;
    assert n1 == n2;
  }

  /** The probing is sequential, not "largest suffix plus one": with `news`, `news-1` and
      `news-3` taken, the slug is `news-2`. */
  lemma ProbeFillsGaps()
    ensures FirstFree({"news", "news-1", "news-3"}, "news", "news-2")
  {
    assert Decimal(1) == "1" && Decimal(2) == "2";
    assert Probe("news", 0) == "news";
    assert Probe("news", 1) == "news-1";
    assert Probe("news", 2) == "news-2";
    assert "news-2" !in {"news", "news-1", "news-3"};
    assert forall k :: 0 <= k < 2 ==> Probe("news", k) in {"news", "news-1", "news-3"};
  }

  /** The `while (...->exists())` loop of `store` and `update`: probe `base`, `base-1`,
      `base-2`, ... against the slugs in `taken` and return the first free one. */
  method AllocateSlug(taken: set<string>, base: string) returns (slug: string)
    ensures slug !in taken
    ensures base !in taken ==> slug == base
    ensures base in taken ==> exists n: nat ::
      && n >= 1
      && slug == base + "-" + Decimal(n)
      && forall k :: 0 <= k < n ==> Probe(base, k) in taken
    ensures FirstFree(taken, base, slug)
  {
    slug := base;
    var count := 1;
    ghost var probed: set<string> := {};
    while slug in taken
      invariant count >= 1
      invariant slug == Probe(base, count - 1)
      invariant forall k :: 0 <= k < count - 1 ==> Probe(base, k) in taken
      invariant probed == ProbedBefore(base, count - 1)
      invariant probed <= taken
      decreases taken - probed
    {
      ProbedBeforeStep(base, count - 1);
      probed := probed + {slug};
      slug := base + "-" + Decimal(count);
      count := count + 1;
    }
    assert forall k :: 0 <= k < count - 1 ==> Probe(base, k) in taken;
  }

  /** The slugs held by the categories in `rows`, optionally leaving one row out: what the
      probe's `Category::where('slug', $slug)` looks up, with `update` leaving out the row
      being renamed. */
  function SlugsExcept(rows: map<int, Category>, except: Option<int>): set<string> {
    set id | id in rows && Some(id) != except :: rows[id].slug
  }

  ghost predicate SlugsUnique(rows: map<int, Category>) {
    forall i, j :: i in rows && j in rows && i != j ==> rows[i].slug != rows[j].slug
  }

  /** The categories table. */
  class CategoryTable {
    var rows: map<int, Category>
    var nextId: int

    ghost predicate Valid()
      reads this
    {
      && (forall id :: id in rows ==> id < nextId)
      && SlugsUnique(rows)
    }

    constructor ()
      ensures Valid() && rows == map[]
    {
      rows := map[];
      nextId := 1;
    }

    /** `store`: create a category under the first free candidate of its name's slug.
        Validation of the request is not part of this model. */
    method Store(name: string, description: Option<string>, slugify: string -> string)
      returns (id: int, status: Status)
      requires Valid()
      modifies this
      ensures Valid()
      ensures status == Created
      ensures id !in old(rows)
      ensures id in rows && rows == old(rows)[id := Category(name, rows[id].slug, description)]
      ensures rows[id].slug !in SlugsExcept(old(rows), None)
      ensures FirstFree(SlugsExcept(old(rows), None), slugify(name), rows[id].slug)
    {
      var taken := SlugsExcept(rows, None);
      var slug := AllocateSlug(taken, slugify(name));
      id := nextId;
      rows := rows[id := Category(name, slug, description)];
      nextId := nextId + 1;
      status := Created;
    }

    /** `update`: rename a category; its own row is left out of the uniqueness scan, so a
        name whose slug is free among the other rows keeps exactly that slug. `description`
        is replaced even when absent from the request. Validation is not part of this model;
        an unknown id is the 404 of route-model binding. */
    method Update(id: int, name: string, description: Option<string>, slugify: string -> string)
      returns (status: Status)
      requires Valid()
      modifies this
      ensures Valid()
      ensures id !in old(rows) ==> status == NotFound && rows == old(rows)
      ensures id in old(rows) ==> (
        && status == Ok
        && id in rows && rows == old(rows)[id := Category(name, rows[id].slug, description)]
        && rows[id].slug !in SlugsExcept(old(rows), Some(id))
        && FirstFree(SlugsExcept(old(rows), Some(id)), slugify(name), rows[id].slug)
        && (slugify(name) !in SlugsExcept(old(rows), Some(id)) ==> rows[id].slug == slugify(name)))
    {
      if id !in rows {
        return NotFound;
      }
      var taken := SlugsExcept(rows, Some(id));
      var slug := AllocateSlug(taken, slugify(name));
      rows := rows[id := Category(name, slug, description)];
      status := Ok;
    }

    /** `destroy`: a category that still has posts is kept (400); otherwise exactly that row
        is removed. `postCount` is `$category->posts()->count()`, which reads the posts table. */
    method Destroy(id: int, postCount: nat) returns (status: Status)
      requires Valid()
      modifies this
      ensures Valid()
      ensures id !in old(rows) ==> status == NotFound && rows == old(rows)
      ensures id in old(rows) && postCount > 0 ==> status == BadRequest && rows == old(rows)
      ensures id in old(rows) && postCount == 0 ==> status == Ok && rows == old(rows) - {id}
    {
      if id !in rows {
        return NotFound;
      }
      if postCount > 0 {
        return BadRequest;
      }
      rows := rows - {id};
      status := Ok;
    }
  }
}
