# RandomCategoryItems, modelled in Dafny

RandomCategoryItems is a MediaWiki parser-tag extension. A
`<randomcategoryitems category="…" …/>` tag is rendered as a short list of
randomly chosen pages from one category. The list is styled as link "cards",
and a "more" link to the full category follows it. This project models the
core of `includes/RandomCategoryItems.php`:

- **`render`** is modelled as `Render.RenderTag`. It covers:
  - argument defaults and trimming;
  - the blank-category error note;
  - the "more" target;
  - the one-day cache expiry;
  - the member lookup and the empty-category note;
  - the shuffle-and-slice selection;
  - the list classes, the link style and the list items;
  - the optional "more" block.

  Markup is abstract: the result is a `Fragment` value (an error or empty
  note, or a listing of items with an optional "more" link). The result also
  records the cache expiry that was set and the key the store was queried
  with.
- **`buildLinkStyle`** is modelled as `Style.BuildLinkStyle`. Each
  declaration is a `Decl` value. The style string is their `"; "`-joined CSS
  text. It is proved to parse back into the same property/value pairs.
- **`sanitizeColor`** is modelled as `Color.SanitizeColor`. It holds the
  three accepted shapes (hex, `rgb(…)`/`rgba(…)`, a bare colour name).
  Accepted values are proved inert: they contain no character that could end
  a declaration or leave the attribute.
- **The string side of `getCategoryMembers`** is modelled as
  `Members.GetCategoryMembers`. Spaces become underscores for the query key,
  and underscores become spaces in the returned titles. The database query
  itself is a parameter, a `Store`.
- **PHP's `shuffle`** is modelled in `Selection`. It is the Fisher–Yates pass
  PHP performs, with the random draws given as a parameter.
  - Every selection is a prefix of a permutation of the members.
  - Conversely, every arrangement is reachable by some draws.

Module layout:

| module | file | contents |
|---|---|---|
| `Common` | `common.dfy` | `Option` and `Distinct` |
| `Text` | `text.dfy` | PHP `trim`, the `[^a-zA-Z0-9.%]` strip, one-character `str_replace` |
| `Color` | `color.dfy` | `sanitizeColor` |
| `Style` | `style.dfy` | `buildLinkStyle` and a parser used to state its round trip |
| `Members` | `members.dfy` | `getCategoryMembers` name normalisation |
| `Selection` | `selection.dfy` | `shuffle` and `array_slice` |
| `Render` | `render.dfy` | `render` |

The file's header comment and its code disagree in one place, and the model
follows the code:

- The header (line 19) names `0.95em` as the `fontsize` default. The code
  (line 44) defaults to the empty string, so lines 177-182 emit no font size
  unless one is given. This is stated by `Render.NoFontSizeByDefault`.

Behaviour the model follows as coded, where the comments only give examples:

- A hex colour accepts any 3 to 8 hex digits, so `#12345` passes. This is
  stated by `Color.HexLengthFiveAndSevenAccepted`.
- `rgb(`/`rgba(` must be lower case. The space class inside the parentheses
  admits any `\s` character, line breaks included.
- `border="no"` with no colour or size arguments gives no style at all. The
  early return at line 129 fires before the `transparent` background could
  be added. This is stated by `Style.NoBorderNoStyle`.

## Model

| member | source | states |
|---|---|---|
| `Text.TrimStartIsSuffix` | includes/RandomCategoryItems.php:191 | the left trim keeps a suffix of the input and removes only trim characters |
| `Text.TrimEndIsPrefix` | includes/RandomCategoryItems.php:191 | the right trim keeps a prefix of the input and removes only trim characters |
| `Text.Trim` | includes/RandomCategoryItems.php:34-46 | `trim` returns a string with no trim character at either end, never longer than its input |
| `Text.TrimSplitsInput` | includes/RandomCategoryItems.php:191 | the input is exactly trim-character padding, then the trimmed result, then more trim-character padding |
| `Text.TrimPadded` | includes/RandomCategoryItems.php:191 | a trimmed string wrapped in any trim characters trims back to itself, so together with `TrimSplitsInput` the result is unique |
| `Text.TrimIgnoresPadding` | includes/RandomCategoryItems.php:34-46 | adding trim characters around an argument never changes what `trim` yields |
| `Text.TrimIdempotent` | includes/RandomCategoryItems.php:191 | trimming twice is trimming once |
| `Text.KeepCssSafe` | includes/RandomCategoryItems.php:143 | the strip leaves only characters of `[A-Za-z0-9.%]` and never lengthens the size |
| `Text.KeepCssSafeKeepsSafe` | includes/RandomCategoryItems.php:143 | every character of `[A-Za-z0-9.%]` occurs in the result exactly as often as in the input |
| `Text.KeepCssSafeConcat` | includes/RandomCategoryItems.php:178 | the strip works per character, so it preserves the order of the characters it keeps |
| `Text.KeepCssSafeIdempotent` | includes/RandomCategoryItems.php:143 | stripping an already stripped size changes nothing |
| `Text.ReplaceCharRoundTrip` | includes/RandomCategoryItems.php:208 | replacing one character by another and back restores any string that did not contain the second one |
| `Color.SanitizeColor` | includes/RandomCategoryItems.php:190-203 | the result is the trimmed input when that is a hex, functional or named colour, and empty exactly when it is none of them |
| `Color.SanitizedAlphabet` | includes/RandomCategoryItems.php:190-203 | only characters of the colour alphabet (hex digits, letters, digits, `#`, `(`, `)`, `,`, `.`, `%`, and the `\s` whitespace: space, tab, LF, VT, FF, CR) survive sanitising |
| `Color.SanitizeTrimmed` | includes/RandomCategoryItems.php:190-203 | on an already trimmed string, sanitising is the identity for a colour and the empty string otherwise |
| `Color.FunctionalPatternSimplifies` | includes/RandomCategoryItems.php:196 | the pattern with its leading `\s*` accepts exactly the same strings as the class-only form the model uses |
| `Color.SanitizedColorIsInert` | includes/RandomCategoryItems.php:190-203 | an accepted colour holds none of `; : " ' < > { } \ / &`, so it cannot inject a declaration or leave the attribute |
| `Color.SanitizeColorIdempotent` | includes/RandomCategoryItems.php:190-203 | sanitising a sanitised colour returns it unchanged |
| `Color.SanitizeColorIgnoresPadding` | includes/RandomCategoryItems.php:191 | surrounding whitespace never decides whether a colour is accepted |
| `Color.SanitizeHexExample` | includes/RandomCategoryItems.php:193 | `#fff` passes unchanged |
| `Color.SanitizeRejectsBadHex` | includes/RandomCategoryItems.php:193-202 | `#ggg` matches none of the three shapes and is rejected |
| `Color.SanitizeRgbExample` | includes/RandomCategoryItems.php:196 | `rgb(10, 20, 30)` passes unchanged |
| `Color.SanitizeRgbaExample` | includes/RandomCategoryItems.php:196 | `rgba(0,0,0,50%)` passes unchanged |
| `Color.SanitizeRejectsUpperCaseFunction` | includes/RandomCategoryItems.php:196-202 | `RGB(1,2,3)` is rejected because the match is case-sensitive |
| `Color.SanitizeNamedExample` | includes/RandomCategoryItems.php:199 | the bare name `red` passes |
| `Color.SanitizeRejectsInjection` | includes/RandomCategoryItems.php:190-203 | `red;background:url(x)` is rejected outright |
| `Color.HexLengthFiveAndSevenAccepted` | includes/RandomCategoryItems.php:193 | the `{3,8}` repetition accepts five and seven hex digits too |
| `Style.BuildLinkStyle` | includes/RandomCategoryItems.php:124-185 | the style is empty exactly when no declaration is produced, and always empty when the early-return condition holds |
| `Style.EarlyReturn` | includes/RandomCategoryItems.php:129-131 | `border="no"` with every colour and the size empty produces no declaration and an empty style |
| `Style.InBuildDecls` | includes/RandomCategoryItems.php:124-185 | a declaration is produced exactly when the early return does not fire and the step for its property produces it |
| `Style.RadiusRule` | includes/RandomCategoryItems.php:136-148 | a radius is emitted only with a border: `square` gives 0, `round` gives 3px, and any other value is stripped and emitted when something is left |
| `Style.BorderRule` | includes/RandomCategoryItems.php:151-156 | a border line appears iff there is a border and a non-empty border colour that survives sanitising, and it carries the sanitised colour |
| `Style.BackgroundRule` | includes/RandomCategoryItems.php:159-166 | the background is the sanitised colour when one is given and accepted, or `transparent` when none is given and there is no border, and nothing else |
| `Style.TextColorRule` | includes/RandomCategoryItems.php:169-174 | a text colour appears iff one is given and survives sanitising |
| `Style.FontSizeRule` | includes/RandomCategoryItems.php:177-182 | a font size appears iff one is given and its strip is non-empty |
| `Style.DeclOrder` | includes/RandomCategoryItems.php:133-184 | declarations come in the fixed order radius, border, background, colour, size, each at most once |
| `Style.DeclValuesInert` | includes/RandomCategoryItems.php:124-185 | no declaration value holds a character that could break out of the declaration |
| `Style.SplitStep` | includes/RandomCategoryItems.php:184 | a `;`-free first part followed by `"; "` splits off whole |
| `Style.SplitJoin` | includes/RandomCategoryItems.php:184 | splitting the `"; "`-joined parts gives the parts back when none contains `;` |
| `Style.StyleRoundTrip` | includes/RandomCategoryItems.php:124-185 | parsing the style string gives exactly the property/value pairs of the declarations, in order |
| `Style.NoBorderNoStyle` | includes/RandomCategoryItems.php:129-131 | `border="no"` alone gives an empty style, with no `transparent` background |
| `Style.DefaultStyle` | includes/RandomCategoryItems.php:136-140 | the defaults give `border-radius: 3px` |
| `Style.NoBorderTextColorStyle` | includes/RandomCategoryItems.php:159-174 | with `border="no"` and any text colour the sanitiser accepts, the style is `background-color: transparent; color: <colour>`: the transparent background comes first, then the sanitised colour |
| `Members.CategoryKey` | includes/RandomCategoryItems.php:208 | the query key has the length of the name and contains no space |
| `Members.DisplayTitle` | includes/RandomCategoryItems.php:228 | a display title has the length of the row and contains no underscore |
| `Members.GetCategoryMembers` | includes/RandomCategoryItems.php:205-232 | one page per row the store returns for the category's key, in order; no page contains an underscore; each page turns back into its row's key when the row had no space |
| `Members.DisplayKeyRoundTrip` | includes/RandomCategoryItems.php:208-228 | a key-form title goes to display form and back unchanged |
| `Members.KeyDisplayRoundTrip` | includes/RandomCategoryItems.php:208-228 | a name without underscores goes to key form and back unchanged |
| `Members.SpacesAndUnderscoresAgree` | includes/RandomCategoryItems.php:208 | names that differ only in spaces versus underscores query the same key |
| `Members.MembersDistinct` | includes/RandomCategoryItems.php:226-231 | distinct key-form rows give distinct pages |
| `Selection.ShuffleFirst` | includes/RandomCategoryItems.php:68 | the Fisher–Yates pass over a prefix permutes that prefix and leaves the rest untouched |
| `Selection.Shuffle` | includes/RandomCategoryItems.php:68 | `shuffle` returns a permutation of its input |
| `Selection.Select` | includes/RandomCategoryItems.php:68-69 | the selection has `min(count, n)` entries, is a prefix of the shuffled pages, never takes an entry more often than it occurs, and is all the pages, reordered, when the count covers them |
| `Selection.SelectDistinct` | includes/RandomCategoryItems.php:68-69 | distinct pages give a selection without repeats |
| `Selection.ShuffleFirstReaches` | includes/RandomCategoryItems.php:68 | every rearrangement of the prefix is produced by some valid draws |
| `Selection.SelectReaches` | includes/RandomCategoryItems.php:68-69 | every ordering of the pages, cut to the count, is a possible selection |
| `Render.Arg` | includes/RandomCategoryItems.php:34-46 | a present argument is read trimmed, and an absent one takes its default |
| `Render.ReadOptions` | includes/RandomCategoryItems.php:34-46 | the count is at least one, equals `max(1, intval(count))` when given, and is 10 when absent |
| `Render.AbsentArgumentsTakeDefaults` | includes/RandomCategoryItems.php:34-46 | whatever else is given, every absent string attribute takes its default |
| `Render.NoFontSizeByDefault` | includes/RandomCategoryItems.php:44 | without a `fontsize` attribute no font-size declaration is produced |
| `Render.DefaultOptions` | includes/RandomCategoryItems.php:34-46 | with no arguments every option takes its default (count 10, border yes, horizontal, radius round, bullets no, German "more" label) |
| `Render.OptionsTrimmed` | includes/RandomCategoryItems.php:34-46 | every string option ends up trimmed, defaults included |
| `Render.PaddedArgumentReadsTheSame` | includes/RandomCategoryItems.php:34-46 | an argument padded with whitespace reads the same as without |
| `Render.MoreTarget` | includes/RandomCategoryItems.php:53-57 | a given non-empty `more` is used trimmed, otherwise the target is `Kategorie:` followed by the category |
| `Render.MoreTargetTrimmed` | includes/RandomCategoryItems.php:53-57 | for a trimmed category the target is always trimmed |
| `Render.ListClasses` | includes/RandomCategoryItems.php:74-83 | `rci-list` comes first; the vertical, no-border and bullets classes appear exactly when their options ask for them |
| `Render.ListClassesOrdered` | includes/RandomCategoryItems.php:74-83 | only the four known classes appear, each at most once, in the fixed order list, vertical, no-border, bullets |
| `Render.DefaultClasses` | includes/RandomCategoryItems.php:74-83 | the default options give just `rci-list` |
| `Render.Items` | includes/RandomCategoryItems.php:91-102 | at most one item per selected page, and every item carries the link style exactly when the style is non-empty |
| `Render.ItemsFromSelection` | includes/RandomCategoryItems.php:91-102 | every item is a selected page that resolved, with that page's URL and text |
| `Render.ItemsConcat` | includes/RandomCategoryItems.php:91-102 | items keep the selection's order: the items of two runs of pages are the items of their concatenation |
| `Render.ItemsAllResolve` | includes/RandomCategoryItems.php:91-102 | when every selected page resolves, there is exactly one item per page, in order |
| `Render.More` | includes/RandomCategoryItems.php:106-114 | the "more" block is present iff its target resolves, and then links that title with the label |
| `Render.RenderTag` | includes/RandomCategoryItems.php:33-118 | a blank category gives the error note with no cache change and no query; otherwise the expiry is one day and the category's key is queried; an empty category gives the empty note; a list has at most `count` items and at most one per member, the computed classes, and a "more" link iff the target resolves |
| `Render.ItemsFromMembers` | includes/RandomCategoryItems.php:68-102 | every item of a shuffled selection is a member page that resolved |
| `Render.ListingProvenance` | includes/RandomCategoryItems.php:61-102 | every listed item is a member page of the category that resolved |
| `Render.ListingItemStyle` | includes/RandomCategoryItems.php:86-102 | in a list, every item carries the style attribute exactly when the built link style is non-empty |
| `Render.ListingMoreLabel` | includes/RandomCategoryItems.php:106-114 | in a list, a "more" link appears only for a target that resolved, and links that target's URL with the configured label |
| `Render.ListingShowsAllMembers` | includes/RandomCategoryItems.php:61-102 | when the count covers the members and every title resolves to itself, the list shows each member exactly once |
| `Render.FreestylekiteExample` | includes/RandomCategoryItems.php:33-118 | for the category "Freestylekite" with three pages, all three are listed in some order, styled `border-radius: 3px`, under `rci-list`, with a link to `Kategorie:Freestylekite` |

## Left out

- The database query in `getCategoryMembers` (lines 206, 210-224) is left out. The join over `categorylinks`, `page` and `linktarget`, the main-namespace filter and the `ORDER BY page_title` are a `Store` parameter that returns the rows for a key.
- `Title::newFromText`, `getLocalURL` and `getText` are a `Resolver` parameter, because title validation belongs to MediaWiki core.
- PHP's `intval` is a parameter, because its string-prefix parsing is a PHP built-in outside this file. Only the `max(1, …)` around it is modelled.
- Randomness is a parameter (`Picks`, the draw for each position). Which draws PHP's generator produces, and their distribution, are not modelled. The model states which outcomes are possible, not how likely each is.
- The HTML markup and escaping done by `Html::element`, `openElement`, `rawElement` and `closeElement` (lines 88-89, 104, 116) is abstracted into the `Fragment` datatype.
- The `rci-container` wrapper, the `rci-item` and `rci-more-link` classes, and the space-joined `class` attribute are part of that markup.
- Hook registration (`onParserFirstCallInit`, lines 29-31) is left out. It is wiring with no logic.
- `addModuleStyles` (line 71) is left out. It is a side effect on the parser output with no effect on the fragment.
- `updateCacheExpiry` (line 59) appears only as the recorded expiry value in `Output`.
- PHP strings are byte strings, while the model works on Unicode characters. Without the `u` modifier, a multi-byte character can never match the ASCII-only classes, and the model rejects those same characters.
- `$` in PCRE also matches before a final newline. That case is not modelled, because every colour is trimmed before the match, so it can never end in a newline.
- `Render.Items`: its own contract states the length bound and the style only. Where each item comes from is stated by `Render.ItemsFromSelection`, and their order by `Render.ItemsConcat` and `Render.ItemsAllResolve`.
- `Render.RenderTag`: its own contract does not pin down the item contents. `Render.ListingProvenance`, `Render.ListingItemStyle`, `Render.ListingMoreLabel` and `Render.ListingShowsAllMembers` state them.
