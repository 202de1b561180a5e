/**
 * The product-category collection of the back office (routes/admin_categories.js):
 * adding, editing and deleting categories while keeping slugs unique. The
 * document store is modelled as an in-memory sequence of records, in insertion
 * order, owned by one CategoryStore object.
 */
module Categories {
  import opened Wrappers
  import Slug

  type CategoryId = nat

  datatype Category = Category(id: CategoryId, title: string, slug: string)

  /** What a submitted add or edit form leads to. */
  datatype Outcome =
    | Saved(id: CategoryId)  // the record was written
    | TitleEmpty             // "Title must have a value": the title is blank
    | SlugTaken              // "Category title exists, choose another."

  ghost predicate SlugsUnique(cs: seq<Category>) {
    forall i, j :: 0 <= i < j < |cs| ==> cs[i].slug != cs[j].slug
  }

  ghost predicate IdsUnique(cs: seq<Category>) {
    forall i, j :: 0 <= i < j < |cs| ==> cs[i].id != cs[j].id
  }

  /**
   * The slug query of add and edit: a record with this slug, and, when `except`
   * names an id, a different id than that one.
   */
  predicate Clashes(c: Category, slug: string, except: Option<CategoryId>) {
    c.slug == slug && (except.None? || c.id != except.value)
  }

  /** The records that remain once every record with this id is removed. */
  function Without(cs: seq<Category>, id: CategoryId): (r: seq<Category>)
    ensures forall c :: c in r <==> c in cs && c.id != id
    ensures (forall c :: c in cs ==> c.id != id) ==> r == cs
  {
    if cs == [] then []
    else if cs[0].id == id then Without(cs[1..], id)
    else [cs[0]] + Without(cs[1..], id)
  }

  /** With unique ids, removing an id removes exactly the one record at its index. */
  lemma {:induction false} WithoutRemovesOne(cs: seq<Category>, k: nat)
    requires IdsUnique(cs) && k < |cs|
    ensures Without(cs, cs[k].id) == cs[..k] + cs[k + 1..]
  {
    var id := cs[k].id;
    TailIdsUnique(cs);
    if k == 0 {
      assert Without(cs, id) == cs[1..];
    } else {
      var rest := cs[1..];
      assert rest[k - 1] == cs[k];
      WithoutRemovesOne(rest, k - 1);
      assert cs[0].id != id;
      assert Without(cs, id) == [cs[0]] + (rest[..k - 1] + rest[k..]);
      ConsSlices(cs, k);
    }
  }

  /** Dropping index `k` is the head followed by the tail without its index `k - 1`. */
  lemma ConsSlices<T>(s: seq<T>, k: nat)
    requires 0 < k < |s|
    ensures [s[0]] + (s[1..][..k - 1] + s[1..][k..]) == s[..k] + s[k + 1..]
  {
    assert s[1..][..k - 1] == s[1..k] && s[1..][k..] == s[k + 1..];
    assert [s[0]] + s[1..k] == s[..k];
  }

  /** Removing records keeps the remaining slugs, and ids, unique. */
  lemma {:induction false} WithoutKeepsUnique(cs: seq<Category>, id: CategoryId)
    requires SlugsUnique(cs) && IdsUnique(cs)
    ensures SlugsUnique(Without(cs, id)) && IdsUnique(Without(cs, id))
  {
    if cs != [] {
      var rest := cs[1..];
      TailIdsUnique(cs);
      TailSlugsUnique(cs);
      WithoutKeepsUnique(rest, id);
      if cs[0].id != id {
        HeadDistinct(cs, Without(rest, id));
        ConsUnique(cs[0], Without(rest, id));
      }
    }
  }

  /** A record is distinct, in slug and id, from every record drawn from the ones after it. */
  lemma HeadDistinct(cs: seq<Category>, r: seq<Category>)
    requires SlugsUnique(cs) && IdsUnique(cs) && cs != []
    requires forall c :: c in r ==> c in cs[1..]
    ensures forall c :: c in r ==> c.slug != cs[0].slug && c.id != cs[0].id
  {
  }

  /** Putting a distinct record in front keeps slugs and ids unique. */
  lemma ConsUnique(x: Category, r: seq<Category>)
    requires SlugsUnique(r) && IdsUnique(r)
    requires forall c :: c in r ==> c.slug != x.slug && c.id != x.id
    ensures SlugsUnique([x] + r) && IdsUnique([x] + r)
  {
  }

  /** Id uniqueness carries over to the tail, which does not hold the head's id. */
  lemma TailIdsUnique(cs: seq<Category>)
    requires IdsUnique(cs) && cs != []
    ensures IdsUnique(cs[1..])
    ensures forall c :: c in cs[1..] ==> c.id != cs[0].id
  {
  }

  lemma TailSlugsUnique(cs: seq<Category>)
    requires SlugsUnique(cs) && cs != []
    ensures SlugsUnique(cs[1..])
  {
  }

  class CategoryStore {
    /** The stored categories, in insertion order. */
    var categories: seq<Category>
    /** The id the next saved category receives. */
    var nextId: CategoryId

    /**
     * Slugs and ids are unique, and every id was handed out already: a slug
     * names at most one stored category.
     */
    ghost predicate Valid()
      reads this
      ensures Valid() ==>
        forall i, j ::
          0 <= i < |categories| && 0 <= j < |categories| && categories[i].slug == categories[j].slug ==> i == j
    {
      SlugsUnique(categories) && IdsUnique(categories) &&
      forall i :: 0 <= i < |categories| ==> categories[i].id < nextId
    }

    constructor ()
      ensures Valid()
      ensures categories == [] && nextId == 0
    {
      categories := [];
      nextId := 0;
    }

    /** `Category.findOne` on the slug, skipping the id `except` when one is given. */
    method FindClash(slug: string, except: Option<CategoryId>) returns (found: Option<Category>)
      ensures found.Some? ==> found.value in categories && Clashes(found.value, slug, except)
      ensures found.None? ==> forall i :: 0 <= i < |categories| ==> !Clashes(categories[i], slug, except)
    {
      var i := 0;
      while i < |categories|
        invariant 0 <= i <= |categories|
        invariant forall j :: 0 <= j < i ==> !Clashes(categories[j], slug, except)
      {
        if Clashes(categories[i], slug, except) {
          return Some(categories[i]);
        }
        i := i + 1;
      }
      return None;
    }

    /** `Category.findById`: the index of the record with this id. */
    method IndexOf(id: CategoryId) returns (k: Option<nat>)
      ensures k.Some? ==> k.value < |categories| && categories[k.value].id == id
      ensures k.None? ==> forall i :: 0 <= i < |categories| ==> categories[i].id != id
    {
      var i := 0;
      while i < |categories|
        invariant 0 <= i <= |categories|
        invariant forall j :: 0 <= j < i ==> categories[j].id != id
      {
        if categories[i].id == id {
          return Some(i);
        }
        i := i + 1;
      }
      return None;
    }

    /**
     * POST add-category: a blank title (empty or only whitespace) is
     * rejected, so is a title whose slug some category already has; otherwise
     * one record is appended.
     */
    method Add(title: string) returns (outcome: Outcome)
      requires Valid()
      modifies this
      ensures Valid()
      ensures outcome == TitleEmpty <==> Slug.AllWhitespace(title)
      ensures outcome == SlugTaken <==>
        !Slug.AllWhitespace(title) && exists i :: 0 <= i < |old(categories)| && old(categories)[i].slug == Slug.Slugify(title)
      ensures outcome.Saved? ==> outcome.id == old(nextId)
      ensures outcome.Saved? ==>
        categories == old(categories) + [Category(old(nextId), title, Slug.Slugify(title))] &&
        nextId == old(nextId) + 1
      ensures !outcome.Saved? ==> categories == old(categories) && nextId == old(nextId)
    {
      var slug := Slug.Slugify(title);
      if Slug.AllWhitespace(title) {
        return TitleEmpty;
      }
      var clash := FindClash(slug, None);
      if clash.Some? {
        return SlugTaken;
      }
      var id := nextId;
      categories := categories + [Category(id, title, slug)];
      nextId := nextId + 1;
      return Saved(id);
    }

    /**
     * POST edit-category/:id: a blank title is rejected, so is a slug that a
     * category with a different id has; otherwise only this category's title
     * and slug change.
     */
    method Edit(id: CategoryId, title: string) returns (outcome: Outcome)
      requires Valid()
      requires exists i :: 0 <= i < |categories| && categories[i].id == id
      modifies this
      ensures Valid()
      ensures nextId == old(nextId)
      ensures outcome == TitleEmpty <==> Slug.AllWhitespace(title)
      ensures outcome == SlugTaken <==>
        !Slug.AllWhitespace(title) &&
        exists i :: 0 <= i < |old(categories)| && Clashes(old(categories)[i], Slug.Slugify(title), Some(id))
      ensures outcome.Saved? ==> outcome.id == id
      ensures outcome.Saved? ==>
        |categories| == |old(categories)| &&
        forall i :: 0 <= i < |categories| ==>
          categories[i] == if old(categories)[i].id == id then Category(id, title, Slug.Slugify(title))
                           else old(categories)[i]
      ensures !outcome.Saved? ==> categories == old(categories)
    {
      var slug := Slug.Slugify(title);
      if Slug.AllWhitespace(title) {
        return TitleEmpty;
      }
      var clash := FindClash(slug, Some(id));
      if clash.Some? {
        return SlugTaken;
      }
      var k := IndexOf(id);
      var i := k.value;
      categories := categories[i := Category(id, title, slug)];
      return Saved(id);
    }

    /** GET delete-category/:id: removes the record with this id, if there is one. */
    method Delete(id: CategoryId)
      requires Valid()
      modifies this
      ensures Valid()
      ensures nextId == old(nextId)
      ensures categories == Without(old(categories), id)
    {
      ghost var before := categories;
      WithoutKeepsUnique(before, id);
      var k := IndexOf(id);
      if k.Some? {
        WithoutRemovesOne(before, k.value);
        categories := categories[..k.value] + categories[k.value + 1..];
      }
      assert categories == Without(before, id);
      forall i | 0 <= i < |categories| ensures categories[i].id < nextId {
        assert categories[i] in before;
      }
    }
  }
}
