/** The string side of `getCategoryMembers`: the category name is turned into
    the store's key form before the query, and each returned title back into
    display form. The query itself belongs to the store and is a parameter. */
module Members {
  import opened Common
  import opened Text

  /** The category-membership query for one key: the titles (in key form) of
      the main-namespace pages filed under that category, in title order. */
  type Store = string -> seq<string>

  /** The query key: spaces become underscores. */
  function CategoryKey(name: string): (key: string)
    ensures |key| == |name|
    ensures ' ' !in key
  {
    ReplaceCharRemoves(name, ' ', '_');
    ReplaceChar(name, ' ', '_')
  }

  /** A returned title in display form: underscores become spaces. */
  function DisplayTitle(title: string): (page: string)
    ensures |page| == |title|
    ensures '_' !in page
  {
    ReplaceCharRemoves(title, '_', ' ');
    ReplaceChar(title, '_', ' ')
  }

  /** `getCategoryMembers`: the store's rows for the category's key, each in
      display form, in the store's order. */
  function GetCategoryMembers(store: Store, name: string): (pages: seq<string>)
    ensures |pages| == |store(CategoryKey(name))|
    ensures forall i :: 0 <= i < |pages| ==> '_' !in pages[i]
    ensures forall i :: 0 <= i < |pages| && ' ' !in store(CategoryKey(name))[i] ==>
      CategoryKey(pages[i]) == store(CategoryKey(name))[i]
  {
    var rows := store(CategoryKey(name));
    DisplayKeyRoundTripAll(rows);
    seq(|rows|, i requires 0 <= i < |rows| => DisplayTitle(rows[i]))
  }

  lemma DisplayKeyRoundTripAll(rows: seq<string>)
    ensures forall i :: 0 <= i < |rows| && ' ' !in rows[i] ==> CategoryKey(DisplayTitle(rows[i])) == rows[i]
  {
    forall i | 0 <= i < |rows| && ' ' !in rows[i]
      ensures CategoryKey(DisplayTitle(rows[i])) == rows[i]
    {
      DisplayKeyRoundTrip(rows[i]);
    }
  }

  /** A title in key form (never containing a space) survives the trip to
      display form and back. */
  lemma DisplayKeyRoundTrip(title: string)
    requires ' ' !in title
    ensures CategoryKey(DisplayTitle(title)) == title
  {
    ReplaceCharRoundTrip(title, '_', ' ');
  }

  /** A name without underscores survives the trip to key form and back. */
  lemma KeyDisplayRoundTrip(name: string)
    requires '_' !in name
    ensures DisplayTitle(CategoryKey(name)) == name
  {
    ReplaceCharRoundTrip(name, ' ', '_');
  }

  /** Spaces and underscores are interchangeable in a category name: two
      spellings that differ only there query the same key. */
  lemma SpacesAndUnderscoresAgree(a: string, b: string)
    requires |a| == |b|
    requires forall i :: 0 <= i < |a| ==> a[i] == b[i] || (a[i] in " _" && b[i] in " _")
    ensures CategoryKey(a) == CategoryKey(b)
  {
  }

  /** Distinct key-form titles stay distinct in display form, so a category
      never lists one page twice. */
  lemma MembersDistinct(store: Store, name: string)
    requires Distinct(store(CategoryKey(name)))
    requires forall i :: 0 <= i < |store(CategoryKey(name))| ==> ' ' !in store(CategoryKey(name))[i]
    ensures Distinct(GetCategoryMembers(store, name))
  {
    var rows := store(CategoryKey(name));
    var pages := GetCategoryMembers(store, name);
    forall i, j | 0 <= i < j < |pages|
      ensures pages[i] != pages[j]
    {
      DisplayKeyRoundTrip(rows[i]);
      DisplayKeyRoundTrip(rows[j]);
    }
  }
}
