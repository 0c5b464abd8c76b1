/** The decision logic of `render`: argument defaults and trimming, the
    empty-category guard, the member lookup, random selection, list classes,
    the link style, item emission and the optional "more" link. Markup is
    abstracted to a `Fragment` value; the store, title resolution, `intval`
    and the random draws are parameters. */
module Render {
  import opened Common
  import opened Text
  import opened Style
  import opened Members
  import opened Selection

  /** The tag's attributes as the parser hands them over. */
  type Attrs = map<string, string>

  /** A title that `Title::newFromText` accepted: its local URL and display text. */
  datatype Page = Page(url: string, text: string)

  /** `Title::newFromText`: `None` when the string is not a valid title. */
  type Resolver = string -> Option<Page>

  /** One `<li class="rci-item">` with its link. */
  datatype Item = Item(href: string, style: Option<string>, text: string)

  /** The `<div class="rci-more">` block and its link. */
  datatype MoreLink = MoreLink(href: string, text: string)

  /** What `render` returns: a single paragraph (error or empty state), or the
      list container with its items and optional "more" block. */
  datatype Fragment =
    | Note(cls: string, message: string)
    | Listing(classes: seq<string>, items: seq<Item>, more: Option<MoreLink>)

  /** The fragment plus what `render` did on the way: the cache expiry it
      set (if any) and the key it queried the store with (if any). */
  datatype Output = Output(fragment: Fragment, cacheExpiry: Option<nat>, queried: Option<string>)

  const CacheSeconds: nat := 86400
  const DefaultCount: int := 10
  const DefaultMoreLabel: string := "Alle Eintr\U{E4}ge \U{2192}"
  const MorePrefix: string := "Kategorie:"
  const ErrorClass: string := "rci-error"
  const ErrorMessage: string := "RandomCategoryItems: Kein Kategoriename angegeben."
  const EmptyClass: string := "rci-empty"
  const EmptyMessage: string := "Keine Eintr\U{E4}ge in dieser Kategorie gefunden."

  /** The options after defaults and trimming. */
  datatype Options = Options(
    category: string,
    count: int,
    moreLabel: string,
    border: string,
    layout: string,
    borderColor: string,
    bgColor: string,
    textColor: string,
    fontsize: string,
    radius: string,
    bullets: string)

  /** `isset($args[key]) ? trim($args[key]) : default`. */
  function Arg(attrs: Attrs, key: string, default: string): (v: string)
    ensures key in attrs ==> v == Trim(attrs[key])
    ensures key !in attrs ==> v == default
  {
    if key in attrs then Trim(attrs[key]) else default
  }

  function Max(a: int, b: int): int {
    if a >= b then a else b
  }

  /** Lines 34-46 of `render`. `intval` is PHP's string-to-integer conversion. */
  function ReadOptions(attrs: Attrs, intval: string -> int): (o: Options)
    ensures o.count >= 1
    ensures "count" in attrs ==> o.count == Max(1, intval(attrs["count"]))
    ensures "count" !in attrs ==> o.count == DefaultCount
  {
    Options(
      Arg(attrs, "category", ""),
      if "count" in attrs then Max(1, intval(attrs["count"])) else DefaultCount,
      Arg(attrs, "morelabel", DefaultMoreLabel),
      Arg(attrs, "border", "yes"),
      Arg(attrs, "layout", "horizontal"),
      Arg(attrs, "bordercolor", ""),
      Arg(attrs, "bgcolor", ""),
      Arg(attrs, "textcolor", ""),
      Arg(attrs, "fontsize", ""),
      Arg(attrs, "radius", "round"),
      Arg(attrs, "bullets", "no"))
  }

  /** Every string option is trimmed, whatever the attributes held. */
  predicate AllTrimmed(o: Options) {
    && IsTrimmed(o.category) && IsTrimmed(o.moreLabel) && IsTrimmed(o.border)
    && IsTrimmed(o.layout) && IsTrimmed(o.borderColor) && IsTrimmed(o.bgColor)
    && IsTrimmed(o.textColor) && IsTrimmed(o.fontsize) && IsTrimmed(o.radius)
    && IsTrimmed(o.bullets)
  }

  /** With no attributes at all, every option takes its documented default. */
  lemma DefaultOptions(intval: string -> int)
    ensures ReadOptions(map[], intval)
      == Options("", 10, DefaultMoreLabel, "yes", "horizontal", "", "", "", "", "round", "no")
  {
  }

  /** Options are trimmed: an attribute given with surrounding whitespace
      reads the same as without it, and every option ends up trimmed. */
  /** Whatever else is given, each absent attribute takes its default from
      lines 34-46 (the absent-`fontsize` default is the empty string, so no
      font size is emitted). */
  lemma AbsentArgumentsTakeDefaults(attrs: Attrs, intval: string -> int)
    ensures var o := ReadOptions(attrs, intval);
      && ("category" !in attrs ==> o.category == "")
      && ("morelabel" !in attrs ==> o.moreLabel == DefaultMoreLabel)
      && ("border" !in attrs ==> o.border == "yes")
      && ("layout" !in attrs ==> o.layout == "horizontal")
      && ("bordercolor" !in attrs ==> o.borderColor == "")
      && ("bgcolor" !in attrs ==> o.bgColor == "")
      && ("textcolor" !in attrs ==> o.textColor == "")
      && ("fontsize" !in attrs ==> o.fontsize == "")
      && ("radius" !in attrs ==> o.radius == "round")
      && ("bullets" !in attrs ==> o.bullets == "no")
  {
  }

  /** Without a `fontsize` attribute no font size is ever emitted: the
      default at line 44 is empty, not the `0.95em` the file header names. */
  lemma NoFontSizeByDefault(attrs: Attrs, intval: string -> int)
    requires "fontsize" !in attrs
    ensures forall v :: FontSize(v) !in BuildDecls(StyleOf(ReadOptions(attrs, intval)))
  {
    var a := StyleOf(ReadOptions(attrs, intval));
    assert a.fontsize == "";
    FontSizeRule(a);
  }

  lemma OptionsTrimmed(attrs: Attrs, intval: string -> int)
    ensures AllTrimmed(ReadOptions(attrs, intval))
  {
    assert IsTrimmed(DefaultMoreLabel) by {
      assert DefaultMoreLabel[0] == 'A';
      assert DefaultMoreLabel[|DefaultMoreLabel| - 1] == '\U{2192}';
    }
    assert IsTrimmed("yes") && IsTrimmed("horizontal") && IsTrimmed("round") && IsTrimmed("no");
  }

  lemma PaddedArgumentReadsTheSame(attrs: Attrs, key: string, w1: string, v: string, w2: string, default: string)
    requires AllTrimChars(w1) && AllTrimChars(w2)
    ensures Arg(attrs[key := w1 + v + w2], key, default) == Arg(attrs[key := v], key, default)
  {
    TrimIgnoresPadding(w1, v, w2);
  }

  /** Lines 53-57: an explicit non-empty `more` (trimmed), else the category page. */
  function MoreTarget(attrs: Attrs, category: string): (target: string)
    ensures ("more" !in attrs || attrs["more"] == "") ==> target == MorePrefix + category
    ensures "more" in attrs && attrs["more"] != "" ==> target == Trim(attrs["more"])
  {
    if "more" in attrs && attrs["more"] != "" then Trim(attrs["more"]) else MorePrefix + category
  }

  /** With a trimmed category (as `ReadOptions` always gives), the "more"
      target is trimmed too: an explicit target is trimmed at line 54, and
      the default starts with `K` and ends as the category does. */
  lemma MoreTargetTrimmed(attrs: Attrs, category: string)
    requires IsTrimmed(category)
    ensures IsTrimmed(MoreTarget(attrs, category))
  {
    if !("more" in attrs && attrs["more"] != "") {
      var t := MorePrefix + category;
      assert t[0] == 'K';
      if category == [] {
        assert t == MorePrefix;
        assert t[|t| - 1] == ':';
      } else {
        assert t[|t| - 1] == category[|category| - 1];
      }
    }
  }

  /** The list classes in their canonical order. */
  const AllClasses: seq<string> := ["rci-list", "rci-vertical", "rci-no-border", "rci-bullets"]

  function ClassRank(c: string): nat {
    if c == "rci-list" then 0
    else if c == "rci-vertical" then 1
    else if c == "rci-no-border" then 2
    else 3
  }

  /** Lines 74-83: the base class, then the layout, border and bullets classes
      each when its option asks for it. */
  function ListClasses(o: Options): (cs: seq<string>)
    ensures |cs| >= 1 && cs[0] == "rci-list"
    ensures "rci-vertical" in cs <==> o.layout == "vertical"
    ensures "rci-no-border" in cs <==> o.border == "no"
    ensures "rci-bullets" in cs <==> o.bullets == "yes"
  {
    ["rci-list"]
      + (if o.layout == "vertical" then ["rci-vertical"] else [])
      + (if o.border == "no" then ["rci-no-border"] else [])
      + (if o.bullets == "yes" then ["rci-bullets"] else [])
  }

  /** The list classes are known ones, each at most once, in the canonical order. */
  lemma ListClassesOrdered(o: Options)
    ensures var cs := ListClasses(o);
      && (forall i :: 0 <= i < |cs| ==> cs[i] in AllClasses)
      && (forall i, j :: 0 <= i < j < |cs| ==> ClassRank(cs[i]) < ClassRank(cs[j]))
  {
  }

  /** The link style as an attribute: present only when non-empty. */
  function StyleAttr(style: string): Option<string> {
    if style == "" then None else Some(style)
  }

  /** Lines 91-102: one item per selected page that resolves, in order;
      pages that do not resolve are skipped. */
  function Items(selected: seq<string>, resolve: Resolver, style: string): (items: seq<Item>)
    ensures |items| <= |selected|
    ensures forall k :: 0 <= k < |items| ==> items[k].style == StyleAttr(style)
    decreases |selected|
  {
    if selected == [] then []
    else
      var rest := Items(selected[1..], resolve, style);
      match resolve(selected[0])
      case None => rest
      case Some(p) => [Item(p.url, StyleAttr(style), p.text)] + rest
  }

  /** Every item comes from a selected page that resolved: its link and text
      are that page's. */
  lemma {:induction false} ItemsFromSelection(selected: seq<string>, resolve: Resolver, style: string)
    ensures forall k :: 0 <= k < |Items(selected, resolve, style)| ==>
      exists i :: 0 <= i < |selected|
        && resolve(selected[i]) == Some(Page(Items(selected, resolve, style)[k].href, Items(selected, resolve, style)[k].text))
    decreases |selected|
  {
    if selected != [] {
      var items := Items(selected, resolve, style);
      var rest := Items(selected[1..], resolve, style);
      ItemsFromSelection(selected[1..], resolve, style);
      forall k | 0 <= k < |items|
        ensures exists i :: 0 <= i < |selected| && resolve(selected[i]) == Some(Page(items[k].href, items[k].text))
      {
        match resolve(selected[0])
        case None =>
          var j :| 0 <= j < |selected[1..]| && resolve(selected[1..][j]) == Some(Page(rest[k].href, rest[k].text));
          assert resolve(selected[j + 1]) == Some(Page(items[k].href, items[k].text));
        case Some(p) =>
          if k == 0 {
            assert resolve(selected[0]) == Some(Page(items[k].href, items[k].text));
          } else {
            assert items[k] == rest[k - 1];
            var j :| 0 <= j < |selected[1..]| && resolve(selected[1..][j]) == Some(Page(rest[k - 1].href, rest[k - 1].text));
            assert resolve(selected[j + 1]) == Some(Page(items[k].href, items[k].text));
          }
      }
    } else {
      assert Items(selected, resolve, style) == [];
    }
  }

  /** Items preserve the selection's order: emitting two runs of pages one
      after the other is emitting their concatenation. */
  lemma {:induction false} ItemsConcat(a: seq<string>, b: seq<string>, resolve: Resolver, style: string)
    ensures Items(a + b, resolve, style) == Items(a, resolve, style) + Items(b, resolve, style)
    decreases |a|
  {
    if a == [] {
      assert a + b == b;
    } else {
      var ab := a + b;
      assert ab[0] == a[0];
      assert ab[1..] == a[1..] + b;
      ItemsConcat(a[1..], b, resolve, style);
      match resolve(a[0])
      case None =>
      case Some(p) =>
        var item := Item(p.url, StyleAttr(style), p.text);
        assert Items(ab, resolve, style) == [item] + Items(ab[1..], resolve, style);
        assert Items(a, resolve, style) == [item] + Items(a[1..], resolve, style);
    }
  }

  /** When every selected page resolves, there is exactly one item per page,
      in the selected order. */
  lemma {:induction false} ItemsAllResolve(selected: seq<string>, resolve: Resolver, style: string)
    requires forall i :: 0 <= i < |selected| ==> resolve(selected[i]).Some?
    ensures |Items(selected, resolve, style)| == |selected|
    ensures forall i :: 0 <= i < |selected| ==>
      Items(selected, resolve, style)[i]
        == Item(resolve(selected[i]).value.url, StyleAttr(style), resolve(selected[i]).value.text)
    decreases |selected|
  {
    if selected != [] {
      var p := resolve(selected[0]).value;
      var rest := Items(selected[1..], resolve, style);
      ItemsAllResolve(selected[1..], resolve, style);
      assert Items(selected, resolve, style) == [Item(p.url, StyleAttr(style), p.text)] + rest;
      forall i | 1 <= i < |selected|
        ensures Items(selected, resolve, style)[i]
          == Item(resolve(selected[i]).value.url, StyleAttr(style), resolve(selected[i]).value.text)
      {
        assert selected[1..][i - 1] == selected[i];
      }
    }
  }

  /** Lines 106-114: the "more" block, present exactly when its target resolves. */
  function More(target: string, moreLabel: string, resolve: Resolver): (m: Option<MoreLink>)
    ensures m.Some? <==> resolve(target).Some?
    ensures m.Some? ==> m.value == MoreLink(resolve(target).value.url, moreLabel)
  {
    match resolve(target)
    case None => None
    case Some(p) => Some(MoreLink(p.url, moreLabel))
  }

  function StyleOf(o: Options): StyleArgs {
    StyleArgs(o.border, o.borderColor, o.bgColor, o.textColor, o.fontsize, o.radius)
  }

  /** `render`, lines 33-118, with the markup left abstract. */
  function RenderTag(attrs: Attrs, intval: string -> int, store: Store, resolve: Resolver, pick: Picks): (out: Output)
    requires ValidPicks(pick)
    // a blank category is reported before any lookup or cache change
    ensures Arg(attrs, "category", "") == "" <==> out.fragment == Note(ErrorClass, ErrorMessage)
    ensures Arg(attrs, "category", "") == "" ==> out.cacheExpiry == None && out.queried == None
    // otherwise the expiry is set and exactly the category's key is queried
    ensures Arg(attrs, "category", "") != "" ==>
      out.cacheExpiry == Some(CacheSeconds) && out.queried == Some(CategoryKey(Arg(attrs, "category", "")))
    // no members gives the empty note
    ensures out.fragment == Note(EmptyClass, EmptyMessage) <==>
      Arg(attrs, "category", "") != "" && store(CategoryKey(Arg(attrs, "category", ""))) == []
    // a list never shows more than the count or more than there are members
    ensures out.fragment.Listing? ==>
      && |out.fragment.items| <= ReadOptions(attrs, intval).count
      && |out.fragment.items| <= |store(CategoryKey(Arg(attrs, "category", "")))|
      && out.fragment.classes == ListClasses(ReadOptions(attrs, intval))
      && (out.fragment.more.Some? <==>
          resolve(MoreTarget(attrs, Arg(attrs, "category", ""))).Some?)
  {
    var o := ReadOptions(attrs, intval);
    if o.category == "" then
      Output(Note(ErrorClass, ErrorMessage), None, None)
    else
      var moreTarget := MoreTarget(attrs, o.category);
      var key := CategoryKey(o.category);
      var pages := GetCategoryMembers(store, o.category);
      if pages == [] then
        Output(Note(EmptyClass, EmptyMessage), Some(CacheSeconds), Some(key))
      else
        var selected := Select(pages, o.count, pick);
        var style := BuildLinkStyle(StyleOf(o));
        var items := Items(selected, resolve, style);
        Output(Listing(ListClasses(o), items, More(moreTarget, o.moreLabel, resolve)), Some(CacheSeconds), Some(key))
  }

  /** In a list, every item is a member page of the category that resolved. */
  lemma ListingProvenance(attrs: Attrs, intval: string -> int, store: Store, resolve: Resolver, pick: Picks)
    requires ValidPicks(pick)
    requires RenderTag(attrs, intval, store, resolve, pick).fragment.Listing?
    ensures var members := GetCategoryMembers(store, ReadOptions(attrs, intval).category);
      var f := RenderTag(attrs, intval, store, resolve, pick).fragment;
      forall k :: 0 <= k < |f.items| ==>
        exists i :: 0 <= i < |members| && resolve(members[i]) == Some(Page(f.items[k].href, f.items[k].text))
  {
    var o := ReadOptions(attrs, intval);
    var members := GetCategoryMembers(store, o.category);
    var style := BuildLinkStyle(StyleOf(o));
    assert RenderTag(attrs, intval, store, resolve, pick).fragment.items
        == Items(Select(members, o.count, pick), resolve, style) by {
      ListingShape(attrs, intval, store, resolve, pick);
    }
    ItemsFromMembers(members, o.count, pick, resolve, style);
  }

  /** In a list, an item carries a style attribute exactly when the built
      link style is non-empty. */
  lemma ListingItemStyle(attrs: Attrs, intval: string -> int, store: Store, resolve: Resolver, pick: Picks)
    requires ValidPicks(pick)
    requires RenderTag(attrs, intval, store, resolve, pick).fragment.Listing?
    ensures var f := RenderTag(attrs, intval, store, resolve, pick).fragment;
      forall k :: 0 <= k < |f.items| ==>
        (f.items[k].style.Some? <==> BuildLinkStyle(StyleOf(ReadOptions(attrs, intval))) != "")
  {
    ListingShape(attrs, intval, store, resolve, pick);
  }

  /** In a list, the "more" block, when present, links the URL of the
      resolved "more" target and shows the configured label. */
  lemma ListingMoreLabel(attrs: Attrs, intval: string -> int, store: Store, resolve: Resolver, pick: Picks)
    requires ValidPicks(pick)
    requires RenderTag(attrs, intval, store, resolve, pick).fragment.Listing?
    ensures var f := RenderTag(attrs, intval, store, resolve, pick).fragment;
      var o := ReadOptions(attrs, intval);
      var target := resolve(MoreTarget(attrs, o.category));
      f.more.Some? ==>
        && target.Some?
        && f.more.value == MoreLink(target.value.url, o.moreLabel)
  {
    ListingShape(attrs, intval, store, resolve, pick);
  }

  /** The items of a selection all come from member pages that resolved. */
  lemma ItemsFromMembers(members: seq<string>, count: nat, pick: Picks, resolve: Resolver, style: string)
    requires ValidPicks(pick)
    ensures var items := Items(Select(members, count, pick), resolve, style);
      forall k :: 0 <= k < |items| ==>
        exists i :: 0 <= i < |members| && resolve(members[i]) == Some(Page(items[k].href, items[k].text))
  {
    var selected := Select(members, count, pick);
    var items := Items(selected, resolve, style);
    ItemsFromSelection(selected, resolve, style);
    forall k | 0 <= k < |items|
      ensures exists i :: 0 <= i < |members| && resolve(members[i]) == Some(Page(items[k].href, items[k].text))
    {
      var j :| 0 <= j < |selected| && resolve(selected[j]) == Some(Page(items[k].href, items[k].text));
      assert selected[j] in members by {
        assert selected[j] in selected;
      }
      var i :| 0 <= i < |members| && members[i] == selected[j];
    }
  }

  /** A list shows exactly the items built from the selection of the
      category's members. */
  lemma ListingItems(attrs: Attrs, intval: string -> int, store: Store, resolve: Resolver, pick: Picks)
    requires ValidPicks(pick)
    requires RenderTag(attrs, intval, store, resolve, pick).fragment.Listing?
    ensures var o := ReadOptions(attrs, intval);
      RenderTag(attrs, intval, store, resolve, pick).fragment.items
        == Items(Select(GetCategoryMembers(store, o.category), o.count, pick), resolve, BuildLinkStyle(StyleOf(o)))
  {
  }

  /** With a resolver that keeps each title as its text, the item texts are
      the selection itself. */
  lemma ItemTextsAreSelection(selected: seq<string>, resolve: Resolver, style: string)
    requires forall i :: 0 <= i < |selected| ==> resolve(selected[i]).Some? && resolve(selected[i]).value.text == selected[i]
    ensures Texts(Items(selected, resolve, style)) == selected
  {
    ItemsAllResolve(selected, resolve, style);
  }

  /** When the count covers every member and every member resolves, the list
      shows each member exactly once, in shuffled order. */
  lemma ListingShowsAllMembers(attrs: Attrs, intval: string -> int, store: Store, resolve: Resolver, pick: Picks)
    requires ValidPicks(pick)
    requires RenderTag(attrs, intval, store, resolve, pick).fragment.Listing?
    requires ReadOptions(attrs, intval).count >= |store(CategoryKey(Arg(attrs, "category", "")))|
    requires forall p :: resolve(p).Some? && resolve(p).value.text == p
    ensures var o := ReadOptions(attrs, intval);
      var items := RenderTag(attrs, intval, store, resolve, pick).fragment.items;
      multiset(Texts(items)) == multiset(GetCategoryMembers(store, o.category))
  {
    var o := ReadOptions(attrs, intval);
    var members := GetCategoryMembers(store, o.category);
    var selected := Select(members, o.count, pick);
    assert multiset(selected) == multiset(members);
    ListingItems(attrs, intval, store, resolve, pick);
    ItemTextsAreSelection(selected, resolve, BuildLinkStyle(StyleOf(o)));
  }

  function Texts(items: seq<Item>): (ts: seq<string>)
    ensures |ts| == |items|
    ensures forall i :: 0 <= i < |items| ==> ts[i] == items[i].text
  {
    seq(|items|, i requires 0 <= i < |items| => items[i].text)
  }

  /** A store holding the category "Freestylekite" with three pages. */
  function KiteStore(key: string): seq<string> {
    if key == "Freestylekite" then ["Big_Air", "Loop", "Unhooked"] else []
  }

  /** A resolver that accepts every title and links it under `/wiki/`. */
  function WikiResolver(title: string): Option<Page> {
    Some(Page("/wiki/" + title, title))
  }

  const KiteAttrs: Attrs := map["category" := "Freestylekite"]

  lemma KiteOptions(intval: string -> int)
    ensures ReadOptions(KiteAttrs, intval)
      == Options("Freestylekite", 10, DefaultMoreLabel, "yes", "horizontal", "", "", "", "", "round", "no")
  {
    TrimOfTrimmed("Freestylekite");
  }

  lemma KiteMembers()
    ensures GetCategoryMembers(KiteStore, "Freestylekite") == ["Big Air", "Loop", "Unhooked"]
  {
    assert CategoryKey("Freestylekite") == "Freestylekite";
    assert DisplayTitle("Big_Air") == "Big Air";
    assert DisplayTitle("Loop") == "Loop";
    assert DisplayTitle("Unhooked") == "Unhooked";
  }

  /** The shape of a list once the category is known and has members. */
  lemma ListingShape(attrs: Attrs, intval: string -> int, store: Store, resolve: Resolver, pick: Picks)
    requires ValidPicks(pick)
    requires ReadOptions(attrs, intval).category != ""
    requires GetCategoryMembers(store, ReadOptions(attrs, intval).category) != []
    ensures var o := ReadOptions(attrs, intval);
      var selected := Select(GetCategoryMembers(store, o.category), o.count, pick);
      RenderTag(attrs, intval, store, resolve, pick)
        == Output(Listing(ListClasses(o), Items(selected, resolve, BuildLinkStyle(StyleOf(o))),
                          More(MoreTarget(attrs, o.category), o.moreLabel, resolve)),
                  Some(CacheSeconds), Some(CategoryKey(o.category)))
  {
  }

  lemma KiteMore()
    ensures More(MoreTarget(KiteAttrs, "Freestylekite"), DefaultMoreLabel, WikiResolver)
      == Some(MoreLink("/wiki/Kategorie:Freestylekite", DefaultMoreLabel))
  {
    assert "more" !in KiteAttrs;
    assert MoreTarget(KiteAttrs, "Freestylekite") == "Kategorie:Freestylekite";
    assert "/wiki/" + "Kategorie:Freestylekite" == "/wiki/Kategorie:Freestylekite";
  }

  /** The default options ask for no extra list class. */
  lemma DefaultClasses(category: string, count: int)
    ensures ListClasses(Options(category, count, DefaultMoreLabel, "yes", "horizontal", "", "", "", "", "round", "no"))
      == ["rci-list"]
  {
    assert "horizontal" != "vertical" by { assert "horizontal"[0] != "vertical"[0]; }
    assert "yes" != "no" by { assert |"yes"| != |"no"|; }
    assert "no" != "yes";
  }

  lemma KiteItems(pick: Picks)
    requires ValidPicks(pick)
    ensures var items := Items(Select(["Big Air", "Loop", "Unhooked"], 10, pick), WikiResolver, "border-radius: 3px");
      && multiset(Texts(items)) == multiset{"Big Air", "Loop", "Unhooked"}
      && forall k :: 0 <= k < |items| ==> items[k].style == Some("border-radius: 3px")
  {
    var members := ["Big Air", "Loop", "Unhooked"];
    var selected := Select(members, 10, pick);
    assert multiset(selected) == multiset(members);
    ItemTextsAreSelection(selected, WikiResolver, "border-radius: 3px");
  }

  /** The category "Freestylekite" with three member pages and the default
      count of ten: all three are listed, in some order, with the default
      rounded-corner style and a "more" link to the category page. */
  lemma FreestylekiteExample(intval: string -> int, pick: Picks)
    requires ValidPicks(pick)
    ensures var out := RenderTag(KiteAttrs, intval, KiteStore, WikiResolver, pick);
      && out.fragment.Listing?
      && out.fragment.classes == ["rci-list"]
      && multiset(Texts(out.fragment.items)) == multiset{"Big Air", "Loop", "Unhooked"}
      && (forall k :: 0 <= k < |out.fragment.items| ==> out.fragment.items[k].style == Some("border-radius: 3px"))
      && out.fragment.more == Some(MoreLink("/wiki/Kategorie:Freestylekite", DefaultMoreLabel))
      && out.cacheExpiry == Some(CacheSeconds)
  {
    var o := ReadOptions(KiteAttrs, intval);
    KiteOptions(intval);
    KiteMembers();
    assert BuildLinkStyle(StyleOf(o)) == "border-radius: 3px" by {
      assert StyleOf(o) == StyleArgs("yes", "", "", "", "", "round");
      DefaultStyle();
    }
    ListingShape(KiteAttrs, intval, KiteStore, WikiResolver, pick);
    KiteMore();
    KiteItems(pick);
    DefaultClasses("Freestylekite", 10);
  }
}
