/** `buildLinkStyle`: the inline `style` attribute put on every item link,
    built from the border, colour, size and radius arguments as an ordered
    list of CSS declarations joined with `"; "`. */
module Style {
  import opened Common
  import opened Text
  import opened Color

  /** The six arguments of `buildLinkStyle`, each already trimmed by `render`. */
  datatype StyleArgs = StyleArgs(
    border: string,
    borderColor: string,
    bgColor: string,
    textColor: string,
    fontsize: string,
    radius: string)

  /** One emitted CSS declaration. `Rank` is its fixed position in the output. */
  datatype Decl =
    | Radius(size: string)
    | Border(color: string)
    | Background(color: string)
    | TextColor(color: string)
    | FontSize(size: string)
  {
    function Property(): string {
      match this
      case Radius(_) => "border-radius"
      case Border(_) => "border"
      case Background(_) => "background-color"
      case TextColor(_) => "color"
      case FontSize(_) => "font-size"
    }

    function Value(): string {
      match this
      case Radius(v) => v
      case Border(c) => "1px solid " + c
      case Background(c) => c
      case TextColor(c) => c
      case FontSize(v) => v
    }

    function Rank(): nat {
      match this
      case Radius(_) => 0
      case Border(_) => 1
      case Background(_) => 2
      case TextColor(_) => 3
      case FontSize(_) => 4
    }

    /** The declaration as written into the attribute: `property: value`. */
    function Css(): string {
      Property() + ": " + Value()
    }
  }

  /** The early-return guard: no border and no individual override at all. */
  predicate NothingToStyle(a: StyleArgs) {
    a.border == "no" && a.borderColor == "" && a.bgColor == "" && a.textColor == "" && a.fontsize == ""
  }

  function RadiusDecls(a: StyleArgs): (ds: seq<Decl>)
    ensures |ds| <= 1 && forall d :: d in ds ==> d.Radius?
  {
    if a.border == "no" then []
    else if a.radius == "square" then [Radius("0")]
    else if a.radius == "round" then [Radius("3px")]
    else
      var safe := KeepCssSafe(a.radius);
      if safe != "" then [Radius(safe)] else []
  }

  function BorderDecls(a: StyleArgs): (ds: seq<Decl>)
    ensures |ds| <= 1 && forall d :: d in ds ==> d.Border?
  {
    if a.borderColor != "" && a.border != "no" then
      var safe := SanitizeColor(a.borderColor);
      if safe != "" then [Border(safe)] else []
    else []
  }

  function BackgroundDecls(a: StyleArgs): (ds: seq<Decl>)
    ensures |ds| <= 1 && forall d :: d in ds ==> d.Background?
  {
    if a.bgColor != "" then
      var safe := SanitizeColor(a.bgColor);
      if safe != "" then [Background(safe)] else []
    else if a.border == "no" then [Background("transparent")]
    else []
  }

  function TextColorDecls(a: StyleArgs): (ds: seq<Decl>)
    ensures |ds| <= 1 && forall d :: d in ds ==> d.TextColor?
  {
    if a.textColor != "" then
      var safe := SanitizeColor(a.textColor);
      if safe != "" then [TextColor(safe)] else []
    else []
  }

  function FontSizeDecls(a: StyleArgs): (ds: seq<Decl>)
    ensures |ds| <= 1 && forall d :: d in ds ==> d.FontSize?
  {
    if a.fontsize != "" then
      var safe := KeepCssSafe(a.fontsize);
      if safe != "" then [FontSize(safe)] else []
    else []
  }

  /** The declarations `buildLinkStyle` emits (see `DeclOrder` for their order). */
  function BuildDecls(a: StyleArgs): seq<Decl> {
    if NothingToStyle(a) then []
    else RadiusDecls(a) + BorderDecls(a) + BackgroundDecls(a) + TextColorDecls(a) + FontSizeDecls(a)
  }

  /** Every declaration's rank is below those that follow it. */
  predicate Ordered(ds: seq<Decl>) {
    forall i, j :: 0 <= i < j < |ds| ==> ds[i].Rank() < ds[j].Rank()
  }

  predicate RanksBelow(ds: seq<Decl>, k: nat) {
    forall i :: 0 <= i < |ds| ==> ds[i].Rank() < k
  }

  /** Appending at most one declaration of rank `k` to an ordered list of
      lower ranks keeps it ordered. */
  lemma OrderedExtend(xs: seq<Decl>, ys: seq<Decl>, k: nat)
    requires Ordered(xs) && RanksBelow(xs, k)
    requires |ys| <= 1 && forall d :: d in ys ==> d.Rank() == k
    ensures Ordered(xs + ys) && RanksBelow(xs + ys, k + 1)
  {
    if |ys| == 1 {
      assert ys[0] in ys;
    }
  }

  /** Declarations appear in the fixed order radius, border, background,
      color, font-size, each at most once. */
  lemma DeclOrder(a: StyleArgs)
    ensures Ordered(BuildDecls(a))
  {
    if !NothingToStyle(a) {
      var r, b, g, t, f := RadiusDecls(a), BorderDecls(a), BackgroundDecls(a), TextColorDecls(a), FontSizeDecls(a);
      OrderedExtend([], r, 0);
      assert [] + r == r;
      OrderedExtend(r, b, 1);
      OrderedExtend(r + b, g, 2);
      OrderedExtend(r + b + g, t, 3);
      OrderedExtend(r + b + g + t, f, 4);
    }
  }

  /** `buildLinkStyle` returns nothing when the border is off and no override is set. */
  lemma EarlyReturn(a: StyleArgs)
    requires NothingToStyle(a)
    ensures BuildDecls(a) == [] && BuildLinkStyle(a) == ""
  {
  }

  /** The part of `BuildDecls` a declaration of this kind can only come from. */
  function PartFor(a: StyleArgs, d: Decl): seq<Decl> {
    match d
    case Radius(_) => RadiusDecls(a)
    case Border(_) => BorderDecls(a)
    case Background(_) => BackgroundDecls(a)
    case TextColor(_) => TextColorDecls(a)
    case FontSize(_) => FontSizeDecls(a)
  }

  /** Each kind of declaration is produced by its own part only. */
  lemma InBuildDecls(a: StyleArgs, d: Decl)
    ensures d in BuildDecls(a) <==> !NothingToStyle(a) && d in PartFor(a, d)
  {
    if !NothingToStyle(a) {
      var r, b, g, t, f := RadiusDecls(a), BorderDecls(a), BackgroundDecls(a), TextColorDecls(a), FontSizeDecls(a);
      assert BuildDecls(a) == r + b + g + t + f;
      assert d in r + b + g + t + f <==> d in r || d in b || d in g || d in t || d in f;
      assert d !in r || d.Radius?;
      assert d !in b || d.Border?;
      assert d !in g || d.Background?;
      assert d !in t || d.TextColor?;
      assert d !in f || d.FontSize?;
    }
  }

  lemma RadiusPart(a: StyleArgs, v: string)
    ensures Radius(v) in RadiusDecls(a) <==>
      && a.border != "no"
      && (if a.radius == "square" then v == "0"
          else if a.radius == "round" then v == "3px"
          else v == KeepCssSafe(a.radius) && v != "")
  {
  }

  lemma BorderPart(a: StyleArgs, c: string)
    ensures Border(c) in BorderDecls(a) <==>
      a.border != "no" && a.borderColor != "" && c == SanitizeColor(a.borderColor) && c != ""
  {
    if a.borderColor != "" && a.border != "no" {
      var safe := SanitizeColor(a.borderColor);
      assert BorderDecls(a) == if safe != "" then [Border(safe)] else [];
    }
  }

  lemma BackgroundPart(a: StyleArgs, c: string)
    ensures Background(c) in BackgroundDecls(a) <==>
      || (a.bgColor != "" && c == SanitizeColor(a.bgColor) && c != "")
      || (a.bgColor == "" && a.border == "no" && c == "transparent")
  {
    if a.bgColor != "" {
      var safe := SanitizeColor(a.bgColor);
      assert BackgroundDecls(a) == if safe != "" then [Background(safe)] else [];
    }
  }

  lemma TextColorPart(a: StyleArgs, c: string)
    ensures TextColor(c) in TextColorDecls(a) <==>
      a.textColor != "" && c == SanitizeColor(a.textColor) && c != ""
  {
    if a.textColor != "" {
      var safe := SanitizeColor(a.textColor);
      assert TextColorDecls(a) == if safe != "" then [TextColor(safe)] else [];
    }
  }

  lemma FontSizePart(a: StyleArgs, v: string)
    ensures FontSize(v) in FontSizeDecls(a) <==>
      a.fontsize != "" && v == KeepCssSafe(a.fontsize) && v != ""
  {
  }

  /** Radius only with a border: `square` is 0, `round` is 3px, anything else
      is stripped to `[A-Za-z0-9.%]` and emitted when something is left. */
  lemma RadiusRule(a: StyleArgs)
    ensures forall v :: Radius(v) in BuildDecls(a) <==>
      && a.border != "no"
      && (if a.radius == "square" then v == "0"
          else if a.radius == "round" then v == "3px"
          else v == KeepCssSafe(a.radius) && v != "")
  {
    forall v
      ensures Radius(v) in BuildDecls(a) <==>
        && a.border != "no"
        && (if a.radius == "square" then v == "0"
            else if a.radius == "round" then v == "3px"
            else v == KeepCssSafe(a.radius) && v != "")
    {
      InBuildDecls(a, Radius(v));
      RadiusPart(a, v);
    }
  }

  /** A border line only with a border and a colour that survives sanitising. */
  lemma BorderRule(a: StyleArgs)
    ensures forall c :: Border(c) in BuildDecls(a) <==>
      a.border != "no" && a.borderColor != "" && c == SanitizeColor(a.borderColor) && c != ""
  {
    forall c
      ensures Border(c) in BuildDecls(a) <==>
        a.border != "no" && a.borderColor != "" && c == SanitizeColor(a.borderColor) && c != ""
    {
      InBuildDecls(a, Border(c));
      BorderPart(a, c);
    }
  }

  /** A given background colour is sanitised (and dropped if rejected); a
      missing one with no border becomes `transparent`, unless the early
      return left no style at all. */
  lemma BackgroundRule(a: StyleArgs)
    ensures forall c :: Background(c) in BuildDecls(a) <==>
      || (a.bgColor != "" && c == SanitizeColor(a.bgColor) && c != "")
      || (a.bgColor == "" && a.border == "no" && !NothingToStyle(a) && c == "transparent")
  {
    forall c
      ensures Background(c) in BuildDecls(a) <==>
        || (a.bgColor != "" && c == SanitizeColor(a.bgColor) && c != "")
        || (a.bgColor == "" && a.border == "no" && !NothingToStyle(a) && c == "transparent")
    {
      InBuildDecls(a, Background(c));
      BackgroundPart(a, c);
    }
  }

  lemma TextColorRule(a: StyleArgs)
    ensures forall c :: TextColor(c) in BuildDecls(a) <==>
      a.textColor != "" && c == SanitizeColor(a.textColor) && c != ""
  {
    forall c
      ensures TextColor(c) in BuildDecls(a) <==>
        a.textColor != "" && c == SanitizeColor(a.textColor) && c != ""
    {
      InBuildDecls(a, TextColor(c));
      TextColorPart(a, c);
    }
  }

  lemma FontSizeRule(a: StyleArgs)
    ensures forall v :: FontSize(v) in BuildDecls(a) <==>
      a.fontsize != "" && v == KeepCssSafe(a.fontsize) && v != ""
  {
    forall v
      ensures FontSize(v) in BuildDecls(a) <==>
        a.fontsize != "" && v == KeepCssSafe(a.fontsize) && v != ""
    {
      InBuildDecls(a, FontSize(v));
      FontSizePart(a, v);
    }
  }

  function Join(parts: seq<string>): string
    decreases |parts|
  {
    if parts == [] then ""
    else if |parts| == 1 then parts[0]
    else parts[0] + "; " + Join(parts[1..])
  }

  function CssLines(ds: seq<Decl>): (lines: seq<string>)
    ensures |lines| == |ds|
    ensures forall i :: 0 <= i < |ds| ==> lines[i] != ""
    ensures forall i :: 0 <= i < |ds| ==> lines[i] == ds[i].Css()
  {
    seq(|ds|, i requires 0 <= i < |ds| => ds[i].Css())
  }

  /** `buildLinkStyle`: the declarations joined with `"; "`. */
  function BuildLinkStyle(a: StyleArgs): (style: string)
    ensures style == "" <==> BuildDecls(a) == []
    ensures NothingToStyle(a) ==> style == ""
  {
    var lines := CssLines(BuildDecls(a));
    JoinEmptyIff(lines);
    Join(lines)
  }

  /** A join of non-empty parts is empty exactly when there are no parts. */
  lemma JoinEmptyIff(parts: seq<string>)
    requires forall k :: 0 <= k < |parts| ==> parts[k] != ""
    ensures Join(parts) == "" <==> parts == []
  {
    if |parts| > 1 {
      assert |Join(parts)| >= |parts[0]|;
    }
  }

  // ---------------------------------------------------------------------------
  // Reading the attribute back: a style string splits at `;` into declarations,
  // each of which splits at its first `:` into property and value.

  /** Index of the first occurrence of `c` in `s`. */
  function FirstIndex(s: string, c: char): (i: nat)
    requires c in s
    ensures i < |s| && s[i] == c && c !in s[..i]
    decreases |s|
  {
    if s[0] == c then 0
    else
      assert s == [s[0]] + s[1..];
      var j := FirstIndex(s[1..], c);
      assert s[..j + 1] == [s[0]] + s[1..][..j];
      j + 1
  }

  function DropLeadingSpace(s: string): string {
    if |s| > 0 && s[0] == ' ' then s[1..] else s
  }

  /** Split a style string at every `;`, dropping the one space after it. */
  function SplitStyle(s: string): (parts: seq<string>)
    ensures parts != []
    decreases |s|
  {
    if ';' !in s then [s]
    else
      var i := FirstIndex(s, ';');
      [s[..i]] + SplitStyle(DropLeadingSpace(s[i + 1..]))
  }

  /** Split one declaration at its first `:` followed by a space. */
  function ParseDeclaration(line: string): Option<(string, string)> {
    if ':' !in line then None
    else
      var i := FirstIndex(line, ':');
      if i + 1 < |line| && line[i + 1] == ' ' then Some((line[..i], line[i + 2..])) else None
  }

  function ParseAll(lines: seq<string>): Option<seq<(string, string)>>
    decreases |lines|
  {
    if lines == [] then Some([])
    else
      match ParseDeclaration(lines[0])
      case None => None
      case Some(p) =>
        match ParseAll(lines[1..])
        case None => None
        case Some(ps) => Some([p] + ps)
  }

  /** Read a style attribute back into (property, value) pairs. */
  function ParseStyle(s: string): Option<seq<(string, string)>> {
    if s == "" then Some([]) else ParseAll(SplitStyle(s))
  }

  function Pairs(ds: seq<Decl>): (ps: seq<(string, string)>)
    ensures |ps| == |ds|
    ensures forall i :: 0 <= i < |ds| ==> ps[i] == (ds[i].Property(), ds[i].Value())
  {
    seq(|ds|, i requires 0 <= i < |ds| => (ds[i].Property(), ds[i].Value()))
  }

  /** In `p + [c] + rest` with no `c` in `p`, the first `c` is the one after `p`. */
  lemma FirstIndexAfter(p: string, c: char, rest: string)
    requires c !in p
    ensures c in p + [c] + rest
    ensures FirstIndex(p + [c] + rest, c) == |p|
  {
    var s := p + [c] + rest;
    assert s[|p|] == c;
    assert s[..|p|] == p;
    var i := FirstIndex(s, c);
    assert i == |p|;
  }

  /** One step of the split: a `;`-free head followed by `"; "` comes off whole. */
  lemma SplitStep(p: string, rest: string)
    requires ';' !in p
    ensures SplitStyle(p + "; " + rest) == [p] + SplitStyle(rest)
  {
    var s := p + "; " + rest;
    assert s == p + [';'] + (" " + rest);
    FirstIndexAfter(p, ';', " " + rest);
    assert s[..|p|] == p;
    assert s[|p| + 1..] == " " + rest;
  }

  /** Splitting a join of `;`-free parts gives the parts back. */
  lemma {:induction false} SplitJoin(parts: seq<string>)
    requires parts != []
    requires forall k :: 0 <= k < |parts| ==> ';' !in parts[k]
    ensures SplitStyle(Join(parts)) == parts
    decreases |parts|
  {
    if |parts| > 1 {
      assert Join(parts) == parts[0] + "; " + Join(parts[1..]);
      SplitStep(parts[0], Join(parts[1..]));
      SplitJoin(parts[1..]);
    }
  }

  /** Property names are fixed words with no `;` or `:`. */
  lemma PropertyIsPlain(d: Decl)
    ensures ';' !in d.Property() && ':' !in d.Property()
  {
    match d
    case Radius(_) =>
    case Border(_) =>
    case Background(_) =>
    case TextColor(_) =>
    case FontSize(_) =>
  }

  /** A declaration's text parses back to its property and value. */
  lemma ParseDeclarationOfDecl(d: Decl)
    ensures ParseDeclaration(d.Css()) == Some((d.Property(), d.Value()))
  {
    var prop := d.Property();
    var line := d.Css();
    assert line == prop + [':'] + (" " + d.Value());
    PropertyIsPlain(d);
    FirstIndexAfter(prop, ':', " " + d.Value());
    assert line[..|prop|] == prop;
    assert line[|prop| + 2..] == d.Value();
  }

  lemma {:induction false} ParseAllOfDecls(ds: seq<Decl>)
    ensures ParseAll(CssLines(ds)) == Some(Pairs(ds))
    decreases |ds|
  {
    if ds != [] {
      ParseDeclarationOfDecl(ds[0]);
      assert CssLines(ds)[1..] == CssLines(ds[1..]);
      ParseAllOfDecls(ds[1..]);
      assert Pairs(ds) == [(ds[0].Property(), ds[0].Value())] + Pairs(ds[1..]);
    }
  }

  predicate AllInert(ds: seq<Decl>) {
    forall i :: 0 <= i < |ds| ==> IsInert(ds[i].Value())
  }

  lemma AllInertConcat(xs: seq<Decl>, ys: seq<Decl>)
    requires AllInert(xs) && AllInert(ys)
    ensures AllInert(xs + ys)
  {
    forall i | 0 <= i < |xs + ys|
      ensures IsInert((xs + ys)[i].Value())
    {
      if i >= |xs| {
        assert (xs + ys)[i] == ys[i - |xs|];
      }
    }
  }

  lemma CssSafeIsInert(s: string)
    requires forall i :: 0 <= i < |s| ==> IsCssSafe(s[i])
    ensures IsInert(s)
  {
    forall i | 0 <= i < |s|
      ensures !IsDangerous(s[i])
    {
      assert IsCssSafe(s[i]);
    }
  }

  lemma BorderValueInert(c: string)
    requires IsInert(c)
    ensures IsInert("1px solid " + c)
  {
    var v := "1px solid " + c;
    forall i | 0 <= i < |v|
      ensures !IsDangerous(v[i])
    {
      if i >= 10 {
        assert v[i] == c[i - 10];
      }
    }
  }

  lemma RadiusValuesInert(a: StyleArgs)
    ensures AllInert(RadiusDecls(a))
  {
    CssSafeIsInert(KeepCssSafe(a.radius));
    assert IsInert("0") && IsInert("3px");
  }

  lemma BorderValuesInert(a: StyleArgs)
    ensures AllInert(BorderDecls(a))
  {
    var ds := BorderDecls(a);
    if ds != [] {
      var c := SanitizeColor(a.borderColor);
      assert ds == [Border(c)];
      SanitizedColorIsInert(a.borderColor);
      BorderValueInert(c);
      assert ds[0].Value() == "1px solid " + c;
    }
  }

  lemma BackgroundValuesInert(a: StyleArgs)
    ensures AllInert(BackgroundDecls(a))
  {
    var ds := BackgroundDecls(a);
    if ds != [] {
      if a.bgColor != "" {
        var c := SanitizeColor(a.bgColor);
        assert ds == [Background(c)];
        SanitizedColorIsInert(a.bgColor);
      } else {
        assert ds == [Background("transparent")];
        TransparentInert();
      }
    }
  }

  lemma TransparentInert()
    ensures IsInert("transparent")
  {
    var v := "transparent";
    forall i | 0 <= i < |v|
      ensures !IsDangerous(v[i])
    {
      assert 'a' <= v[i] <= 'z';
    }
  }

  /** No emitted value can end its declaration early: every value is free of
      `;`, `:` and the other dangerous characters. */
  lemma DeclValuesInert(a: StyleArgs)
    ensures AllInert(BuildDecls(a))
  {
    if !NothingToStyle(a) {
      var r, b, g, t, f := RadiusDecls(a), BorderDecls(a), BackgroundDecls(a), TextColorDecls(a), FontSizeDecls(a);
      RadiusValuesInert(a);
      BorderValuesInert(a);
      BackgroundValuesInert(a);
      assert AllInert(t) by { SanitizedColorIsInert(a.textColor); }
      assert AllInert(f) by { CssSafeIsInert(KeepCssSafe(a.fontsize)); }
      AllInertConcat(r, b);
      AllInertConcat(r + b, g);
      AllInertConcat(r + b + g, t);
      AllInertConcat(r + b + g + t, f);
    }
  }

  /** The style attribute reads back as exactly the declarations emitted, in
      order: no argument can add, split or merge a declaration. */
  lemma StyleRoundTrip(a: StyleArgs)
    ensures ParseStyle(BuildLinkStyle(a)) == Some(Pairs(BuildDecls(a)))
  {
    var ds := BuildDecls(a);
    var lines := CssLines(ds);
    if ds != [] {
      DeclValuesInert(a);
      forall k | 0 <= k < |lines|
        ensures ';' !in lines[k]
      {
        var d := ds[k];
        assert IsInert(d.Value());
        assert lines[k] == d.Property() + ": " + d.Value();
        PropertyIsPlain(d);
        assert ';' !in d.Value() by {
          forall j | 0 <= j < |d.Value()|
            ensures d.Value()[j] != ';'
          {
            assert !IsDangerous(d.Value()[j]);
          }
        }
      }
      SplitJoin(lines);
      ParseAllOfDecls(ds);
    }
  }

  /** Border `"no"` with nothing else set gives no style attribute at all. */
  lemma NoBorderNoStyle()
    ensures BuildLinkStyle(StyleArgs("no", "", "", "", "", "round")) == ""
  {
  }

  /** The defaults of `render` give the rounded-corner rule only. */
  lemma DefaultStyle()
    ensures BuildLinkStyle(StyleArgs("yes", "", "", "", "", "round")) == "border-radius: 3px"
  {
    var ds := BuildDecls(StyleArgs("yes", "", "", "", "", "round"));
    assert ds == [Radius("3px")];
  }

  /** With no border, a text colour alone still brings the transparent
      background, ahead of the colour. */
  lemma NoBorderTextColorStyle(c: string)
    requires SanitizeColor(c) != ""
    ensures BuildLinkStyle(StyleArgs("no", "", "", c, "", "round"))
      == Background("transparent").Css() + "; " + TextColor(SanitizeColor(c)).Css()
  {
    NoBorderTextColorDecls(c);
    TransparentThenColor(StyleArgs("no", "", "", c, "", "round"), SanitizeColor(c));
  }

  lemma NoBorderTextColorDecls(c: string)
    requires SanitizeColor(c) != ""
    ensures BuildDecls(StyleArgs("no", "", "", c, "", "round"))
      == [Background("transparent"), TextColor(SanitizeColor(c))]
  {
    var a := StyleArgs("no", "", "", c, "", "round");
    assert RadiusDecls(a) == [] && BorderDecls(a) == [] && FontSizeDecls(a) == [];
  }

  lemma TransparentThenColor(a: StyleArgs, color: string)
    requires BuildDecls(a) == [Background("transparent"), TextColor(color)]
    ensures BuildLinkStyle(a) == Background("transparent").Css() + "; " + TextColor(color).Css()
  {
    TransparentThenColorLines(color);
  }

  lemma TransparentThenColorLines(color: string)
    ensures Join(CssLines([Background("transparent"), TextColor(color)]))
      == Background("transparent").Css() + "; " + TextColor(color).Css()
  {
    var ds := [Background("transparent"), TextColor(color)];
    assert CssLines(ds) == [ds[0].Css(), ds[1].Css()];
    assert CssLines(ds)[1..] == [ds[1].Css()];
  }

}
