# Symmetrical Eureka: client helpers, spell-list filters and the ability-score renderer

This project is a Dafny model of the string and filter logic of the Symmetrical Eureka
character-sheet site. It covers three files:

- **SE.js**, the character-sheet page script:
  - `get_csrf_token` scans the cookie string for `csrftoken=` and returns the text up to the next `;`.
  - `adjust_mod` shows an ability modifier with a `+` in front when it is not negative.
  - The badge id of an ability input is derived from the input's id with `replace("_", "_mod_")`.
- **spell_list.js**, the spell-list page script:
  - the DataTables `num-pre` key of the level column;
  - `combine_school_level`, the label of the spell dialog;
  - the global `filters` object;
  - `apply_filters`, which hides or shows every table row;
  - the click handlers of the class and level links in `filter_classes` and `filter_levels`.
- **renderers.py**, the `AbilityScoreFieldRenderer`:
  - its `__init__` derives `mod_id` from the field's label id, replacing every underscore;
  - `make_input_group` puts the addon span and the modifier badge around an input;
  - `wrap_label_and_field` wraps the field in a `<div>`.

Layout:

- `wrappers.dfy` defines `Option`.
- `strings.dfy` models the language built-ins these files rely on:
  - JavaScript's `indexOf` (start index clamped) and `substring` (clamped, with swapped arguments);
  - `replace` with a string pattern, which replaces only the first occurrence;
  - Python's `re.sub` with a one-character pattern, which replaces every occurrence;
  - the decimal text of an integer, with a parser for it.
- `client_helpers.dfy` models SE.js.
- `spell_list.dfy` models spell_list.js:
  - the `filters` object is the class `Filters`, with two optional fields;
  - the table's per-row `hidden` flags are an `array<bool>` that `ApplyFilters` updates in a loop.
- `renderers.dfy` models renderers.py. It also holds the lemmas that compare the server's badge id
  with the page script's.

A level reaches the page script either as a number or as text. `LevelValue` keeps the two
apart because `switch` compares with `===`.

A link's id is matched by `/class_filter_(.+)$/` or `/level_filter_(.+)$/`. The match is modelled
as the leftmost position where the prefix is followed by a non-empty run of characters that
reaches the end and holds no line terminator. When there is no match, `match(...)[1]` throws,
and the handler changes nothing.

## Model

| member | source | states |
|---|---|---|
| Strings.IndexOf | SymmetricalEureka/static/SymmetricalEureka/js/SE.js:6 | the result is the first index at or after the (clamped) start where the pattern occurs, or -1 when there is none |
| Strings.Substring | SymmetricalEureka/static/SymmetricalEureka/js/SE.js:15 | for in-range arguments the result is the text between the two indices, whichever of them is smaller |
| ClientHelpers.CsrfToken | SymmetricalEureka/static/SymmetricalEureka/js/SE.js:4-16 | the extracted token never contains `;` |
| ClientHelpers.CsrfTokenAbsent | SymmetricalEureka/static/SymmetricalEureka/js/SE.js:6-9 | with no `csrftoken=` anywhere in the cookie string, the token is "" |
| ClientHelpers.CsrfTokenUnterminated | SymmetricalEureka/static/SymmetricalEureka/js/SE.js:10-14 | when no `;` follows the first `csrftoken=`, the token is the whole remainder after it |
| ClientHelpers.CsrfTokenTerminated | SymmetricalEureka/static/SymmetricalEureka/js/SE.js:10-15 | otherwise the token is exactly the text between the first `csrftoken=` and the next `;` |
| ClientHelpers.CsrfTokenRoundTrip | SymmetricalEureka/static/SymmetricalEureka/js/SE.js:4-16 | for a cookie `p + "csrftoken=" + v + s` with no `csrftoken=` in `p`, no `;` in `v` and `s` empty or starting with `;`, the token is `v` |
| ClientHelpers.CsrfTokenMatchesInsideOtherName | SymmetricalEureka/static/SymmetricalEureka/js/SE.js:6 | matching is by raw substring: in `xcsrftoken=a; csrftoken=b` the token is `a` |
| ClientHelpers.ModifierText | SymmetricalEureka/static/SymmetricalEureka/js/SE.js:19-23 | the shown text starts with `+` exactly when the modifier is at least 0; a negative modifier is shown as its own decimal text |
| ClientHelpers.ModifierTextRoundTrip | SymmetricalEureka/static/SymmetricalEureka/js/SE.js:19-23 | the shown text reads back as the modifier it came from, so the sign prefix loses nothing |
| ClientHelpers.ModId | SymmetricalEureka/static/SymmetricalEureka/js/SE.js:34 | an id without `_` is unchanged; otherwise only the first `_` becomes `_mod_` and the text before and after it is kept |
| ClientHelpers.ModIdOfStrength | SymmetricalEureka/static/SymmetricalEureka/js/SE.js:50 | the input `id_strength` gets the badge id `id_mod_strength` |
| SpellList.SortKey | SymmetricalEureka/static/SymmetricalEureka/js/spell_list.js:7-12 | the text "Cantrip" sorts as 0, and every other level value is returned unchanged |
| SpellList.SortKeyIdempotent | SymmetricalEureka/static/SymmetricalEureka/js/spell_list.js:7-12 | applying the key to its own result changes nothing |
| SpellList.CombineSchoolLevel | SymmetricalEureka/static/SymmetricalEureka/js/spell_list.js:25-47 | a ritual spell's label ends in " (ritual)" |
| SpellList.CantripLabel | SymmetricalEureka/static/SymmetricalEureka/js/spell_list.js:28-30 | the label of a cantrip is the school followed by " Cantrip" |
| SpellList.NumberedLabel | SymmetricalEureka/static/SymmetricalEureka/js/spell_list.js:31-41 | the numbers 1, 2 and 3 give "1st", "2nd" and "3rd level " before the school; any other number gives its decimal text and "th level " |
| SpellList.TextLevelIsNotOrdinal | SymmetricalEureka/static/SymmetricalEureka/js/spell_list.js:26-41 | a text level other than "Cantrip" always falls through to the default branch, because `===` never equates text with a number |
| SpellList.TextTwoLabel | SymmetricalEureka/static/SymmetricalEureka/js/spell_list.js:40-41 | the text "2" at Evocation gives "2th level Evocation" |
| SpellList.RitualOnlyAppends | SymmetricalEureka/static/SymmetricalEureka/js/spell_list.js:43-46 | the ritual label is the non-ritual label followed by " (ritual)", so nothing before the marker depends on the flag |
| SpellList.RitualSuffixIff | SymmetricalEureka/static/SymmetricalEureka/js/spell_list.js:25-47 | for a school not itself ending in "(ritual)", the label ends in " (ritual)" if and only if the spell is a ritual |
| SpellList.NumberedLabelInjective | SymmetricalEureka/static/SymmetricalEureka/js/spell_list.js:31-41 | for a fixed school and ritual flag, different numeric levels get different labels |
| SpellList.OrdinalIsNotDefault | SymmetricalEureka/static/SymmetricalEureka/js/spell_list.js:31-41 | the label of level 1, 2 or 3 never equals the `th` label of another number |
| SpellList.IdSuffix | SymmetricalEureka/static/SymmetricalEureka/js/spell_list.js:98-100 | there is no captured text exactly when the id does not match `prefix(.+)$`; otherwise the captured text is non-empty |
| SpellList.IdSuffixRoundTrip | SymmetricalEureka/static/SymmetricalEureka/js/spell_list.js:123-125 | the id made of a filter prefix and a non-empty one-line name yields that name |
| SpellList.SpellNames | SymmetricalEureka/static/SymmetricalEureka/js/spell_list.js:111-114 | the class filter's spell set holds exactly the `spell` of every entry in the response |
| SpellList.HiddenFlags | SymmetricalEureka/static/SymmetricalEureka/js/spell_list.js:82-93 | one hidden flag per table row |
| SpellList.NoFiltersHideNothing | SymmetricalEureka/static/SymmetricalEureka/js/spell_list.js:85-88 | with neither filter set, no row is hidden |
| SpellList.NarrowingNeverShows | SymmetricalEureka/static/SymmetricalEureka/js/spell_list.js:85-88 | adding a filter, or shrinking the class's spell set, never shows a row that was hidden |
| SpellList.HiddenDependsOnRowOnly | SymmetricalEureka/static/SymmetricalEureka/js/spell_list.js:82-92 | whether a row is hidden depends only on its own name and level |
| SpellList.Filters.constructor | SymmetricalEureka/static/SymmetricalEureka/js/spell_list.js:4 | the `filters` object starts with neither filter set |
| SpellList.Filters.ApplyFilters | SymmetricalEureka/static/SymmetricalEureka/js/spell_list.js:81-94 | afterwards a row is hidden exactly when its name is not in the class filter's spells, or its level text differs from the level filter |
| SpellList.Filters.ChooseClass | SymmetricalEureka/static/SymmetricalEureka/js/spell_list.js:96-119 | several cases: "any" removes the class filter and re-applies the filters; re-choosing the active class, an id that does not match or a failed request changes nothing; a new class sets the class filter to that class and the response's spells, then re-applies; the level filter is never touched |
| SpellList.Filters.ChooseLevel | SymmetricalEureka/static/SymmetricalEureka/js/spell_list.js:121-137 | "any" removes the level filter; any other suffix becomes the level filter; the rows are then re-filtered; an id that does not match changes nothing; the class filter is never touched |
| Renderers.ModId | SymmetricalEureka/renderers.py:18 | an id without `_` is unchanged |
| Renderers.NewRenderer | SymmetricalEureka/renderers.py:16-18 | the renderer keeps its addons and widget, and its `mod_id` has twice as many underscores as the label id, since every `_` became `_mod_` |
| Renderers.ModIdOfStrength | SymmetricalEureka/renderers.py:18 | the label id `id_strength` gets the badge id `id_mod_strength`, the same id the page script computes |
| Renderers.ModIdsAgreeIff | SymmetricalEureka/renderers.py:18 | the page script's badge id (first `_` only) equals the renderer's (every `_`) if and only if the id has at most one underscore |
| Renderers.MakeInputGroup | SymmetricalEureka/renderers.py:20-37 | without an addon, or with a widget other than TextInput, DateInput or Select, the html is returned unchanged; otherwise it is the before addon, the html and the after addon, in that order |
| Renderers.MakeInputGroupKeepsHtml | SymmetricalEureka/renderers.py:32-36 | the result starts with the before addon and ends with the after addon, and cutting both off gives back the html |
| Renderers.MakeInputGroupBadgeId | SymmetricalEureka/renderers.py:25-31 | with an after addon on a decorated field, the result ends with the `ability-score-mod badge` div whose id is the renderer's mod id and whose content is the addon, then the padding div's end tag |
| Renderers.WrapLabelAndField | SymmetricalEureka/renderers.py:40 | the field's html sits unchanged inside exactly one `<div>` and `</div>` |

## Left out

- Network requests (`$.get` and `$.post` in SE.js and spell_list.js) are left out. The class API's answer is a parameter of `ChooseClass`, and `None` stands for a request whose `done` callback never runs.
- The ordering of several outstanding class requests is not modelled. Each click is taken to complete before the next.
- DOM and jQuery effects are left out: setting the `#active_class` and `#active_level` captions, toggling fieldsets, the modal, and writing the modifier into its element. The model keeps only the strings and hidden flags these effects use.
- The DataTables plugin is left out apart from its `num-pre` key.
- `update_ability_score` is left out apart from its badge id and its use of the CSRF token. Its URL and post data are request plumbing.
- `CsrfToken` takes the cookie string as a parameter in place of `document.cookie`.
- The server-side ability-modifier, saving-throw and class-method views are not part of this model. Their source is not among the files it is built from.
- The bootstrap3 superclass: the `super().__init__` call, the inherited attributes it sets, and the base `wrap_label_and_field` that `WrapLabelAndField` would delegate to are not part of this model. They are library code.
- The template tags, views, forms, serializers, URLs and models are left out. They are Django plumbing around the core.
- SpellList.SpellNames: the set of spell names stands for the JavaScript object `acc`. A name that is an inherited property of every object, such as `constructor`, would pass `spells[name] !== undefined` in the script but is not in the set.
- Strings.IntToString: writes every integer in plain decimal. JavaScript switches to exponent form from 1e21 up, and the model does not follow it there.
- Renderers.FieldRenderer: an addon counts as set when it is a non-empty string. Python would also treat `None` as not set; that case is not modelled.
- Renderers.WidgetKind: folds `isinstance` into four cases. A subclass of TextInput, DateInput or Select is one of the first three.
- Levels and modifiers are whole numbers. JavaScript numbers are floating point, and fractional values are not modelled.
