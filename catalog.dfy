/**
 * The platform catalog: which platforms exist (in display order), which
 * category codes each accepts, and each platform's header colour; and the
 * validation that guards adding a platform at run time.
 */
module Catalogs {

  import opened Results
  import opened Text

  datatype Catalog = Catalog(order: seq<string>, categories: map<string, seq<string>>, colors: map<string, string>)
  {
    /** Platform names are unique, and every listed platform has categories and a colour. */
    ghost predicate Valid()
    {
      && (forall i, j | 0 <= i < j < |order| :: order[i] != order[j])
      && (forall p :: p in categories <==> p in order)
      && colors.Keys == categories.Keys
    }
  }

  /** The category codes, in the order of the category name table. */
  const CategoryCodes: seq<string> := ["AET", "PPT", "AEFX", "PPFX", "MGT", "DRT", "DRM", "FCPX"]

  const AllSeven: seq<string> := ["AET", "PPT", "AEFX", "PPFX", "FCPX", "DRT", "DRM"]

  /** The catalog the tracker starts with when no saved catalog is loaded. */
  const Default: Catalog := Catalog(
    ["Motion Array", "Adobe Stock", "Envato", "Artlist", "Videobolt", "MotionElements", "CCT", "Pond5", "FilterGrade"],
    map[
      "Motion Array" := AllSeven,
      "Adobe Stock" := ["AET", "PPT", "MGT"],
      "Envato" := AllSeven,
      "Artlist" := ["AET", "PPT", "FCPX", "DRT"],
      "Videobolt" := ["AET"],
      "MotionElements" := AllSeven,
      "CCT" := AllSeven,
      "Pond5" := ["AET"],
      "FilterGrade" := AllSeven],
    map[
      "Motion Array" := "#F0F4FF",
      "Adobe Stock" := "#FFF0F4",
      "Envato" := "#F0FFF4",
      "Artlist" := "#FFF4F0",
      "Videobolt" := "#FFF8F0",
      "MotionElements" := "#F0FFFF",
      "CCT" := "#F4FFF0",
      "Pond5" := "#FFF0F8",
      "FilterGrade" := "#F0FFF8"])

  /** The built-in platform names differ in length or in their first letter, so no two are equal. */
  lemma DefaultOrderDistinct()
    ensures forall i, j | 0 <= i < j < |Default.order| :: Default.order[i] != Default.order[j]
  {
    var o := Default.order;
    var lengths := [12, 11, 6, 7, 9, 14, 3, 5, 11];
    assert forall i | 0 <= i < |o| :: |o[i]| == lengths[i];
    forall i, j | 0 <= i < j < |o|
      ensures o[i] != o[j]
    {
      if lengths[i] == lengths[j] {
        assert o[i][0] != o[j][0];
      }
    }
  }

  lemma DefaultValid()
    ensures Default.Valid()
  {
    DefaultOrderDistinct();
    var names := set p | p in Default.order;
    assert Default.categories.Keys == names;
    assert Default.colors.Keys == names;
  }

  ghost predicate Distinct(s: seq<string>)
  {
    forall i, j | 0 <= i < j < |s| :: s[i] != s[j]
  }

  /** `r` is `s` with some elements left out, the rest in their order in `s`. */
  ghost predicate Subsequence(r: seq<string>, s: seq<string>)
  {
    if r == [] then true
    else if s == [] then false
    else (r[0] == s[0] && Subsequence(r[1..], s[1..])) || Subsequence(r, s[1..])
  }

  /** The elements of `s` that are in `keep`, in the order of `s` (a list comprehension with a filter). */
  function Filter(s: seq<string>, keep: set<string>): (r: seq<string>)
    ensures |r| <= |s|
    ensures Subsequence(r, s)
    ensures forall x :: x in r <==> x in s && x in keep
    ensures Distinct(s) ==> Distinct(r)
  {
    if s == [] then []
    else if s[0] in keep then [s[0]] + Filter(s[1..], keep)
    else Filter(s[1..], keep)
  }

  /** No two category codes share both their first and their last letter, so no two are equal. */
  lemma CategoryCodesDistinct()
    ensures Distinct(CategoryCodes)
  {
    var o := CategoryCodes;
    forall i, j | 0 <= i < j < |o|
      ensures o[i] != o[j]
    {
      assert o[i][0] != o[j][0] || o[i][|o[i]| - 1] != o[j][|o[j]| - 1];
    }
  }

  datatype PlatformError = EmptyPlatformName | DuplicatePlatform | NoCategoriesSelected | InvalidColor

  /**
   * Adding a platform named `rawName` (stripped) with the ticked category codes
   * and `color`, where `colorValid` is whether Tk accepts `color`. The checks run
   * in this order: blank name, name already in the catalog, no category ticked,
   * colour rejected; the first that fails is reported and the catalog is kept.
   */
  function AddPlatform(c: Catalog, rawName: string, ticked: set<string>, color: string, colorValid: bool)
    : (r: Result<Catalog, PlatformError>)
    ensures r == Failure(EmptyPlatformName) <==> Strip(rawName) == []
    ensures r == Failure(DuplicatePlatform) <==> Strip(rawName) != [] && Strip(rawName) in c.categories
    ensures r == Failure(NoCategoriesSelected) <==>
              && Strip(rawName) != [] && Strip(rawName) !in c.categories
              && forall k | k in CategoryCodes :: k !in ticked
    ensures r == Failure(InvalidColor) <==>
              && Strip(rawName) != [] && Strip(rawName) !in c.categories
              && (exists k | k in CategoryCodes :: k in ticked) && !colorValid
    ensures r.Success? ==>
              var name := Strip(rawName);
              && r.value.order == c.order + [name]
              && r.value.categories == c.categories[name := Filter(CategoryCodes, ticked)]
              && r.value.colors == c.colors[name := color]
  {
    var name := Strip(rawName);
    var selected := Filter(CategoryCodes, ticked);
    assert selected != [] ==> selected[0] in selected;
    if name == [] then Failure(EmptyPlatformName)
    else if name in c.categories then Failure(DuplicatePlatform)
    else if selected == [] then Failure(NoCategoriesSelected)
    else if !colorValid then Failure(InvalidColor)
    else Success(Extend(c, name, selected, color))
  }

  function Extend(c: Catalog, name: string, selected: seq<string>, color: string): Catalog
  {
    Catalog(c.order + [name], c.categories[name := selected], c.colors[name := color])
  }

  lemma ExtendKeepsValid(c: Catalog, name: string, selected: seq<string>, color: string)
    requires c.Valid() && name !in c.categories
    ensures Extend(c, name, selected, color).Valid()
  {
    var c' := Extend(c, name, selected, color);
    forall i, j | 0 <= i < j < |c'.order| ensures c'.order[i] != c'.order[j] {
      if j == |c.order| {
        assert c.order[i] in c.order;
      }
    }
    forall p ensures p in c'.categories <==> p in c'.order {
      assert p in c'.order <==> p in c.order || p == name;
    }
  }

  /**
   * A successful addition keeps the catalog valid, appends exactly one platform
   * with a non-empty list of distinct known category codes, and leaves every
   * existing platform's categories and colour as they were.
   */
  lemma AddPlatformKeepsValid(c: Catalog, rawName: string, ticked: set<string>, color: string, colorValid: bool)
    requires c.Valid()
    requires AddPlatform(c, rawName, ticked, color, colorValid).Success?
    ensures var c' := AddPlatform(c, rawName, ticked, color, colorValid).value;
            && c'.Valid()
            && c'.categories.Keys == c.categories.Keys + {Strip(rawName)}
            && |c'.categories[Strip(rawName)]| > 0
            && Distinct(c'.categories[Strip(rawName)])
            && (forall k | k in c'.categories[Strip(rawName)] :: k in CategoryCodes && k in ticked)
            && (forall p | p in c.categories :: c'.categories[p] == c.categories[p] && c'.colors[p] == c.colors[p])
  {
    var name := Strip(rawName);
    var sel := Filter(CategoryCodes, ticked);
    CategoryCodesDistinct();
    ExtendKeepsValid(c, name, sel, color);
  }
}
